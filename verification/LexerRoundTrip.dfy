/**
 Printing and lexing are inverse. A document is a list of spelled tokens with
 whitespace and comments around them; lexing its text gives back the tokens, each
 at its own offset. The one exception is a minus sign directly followed by a line
 comment, which the lexer takes for part of the comment.
 */
module LexerRoundTrip {
  import opened Wrappers
  import opened Sequences
  import opened Tokens
  import opened Lexing

  /** Whitespace or a comment. Only a line comment that ends the text may lack its newline. */
  datatype Trivia =
    | Space(c: char)
    | LineComment(line: string, newline: bool)
    | BlockComment(block: string)

  /** A token, its spelling in the text, and what follows it before the next token. */
  datatype Item = Item(token: Token, text: string, separators: seq<Trivia>)

  datatype Document = Document(lead: seq<Trivia>, items: seq<Item>)

  // ----- Printing

  function TriviaText(t: Trivia): (text: string)
    ensures !t.Space? ==> |text| >= 2
    ensures text != ""
  {
    match t
    case Space(c) => [c]
    case LineComment(line, newline) => "--" + line + if newline then "\n" else ""
    case BlockComment(block) => "/*" + block + "*/"
  }

  function SeparatorText(separators: seq<Trivia>): string {
    if separators == [] then "" else TriviaText(separators[0]) + SeparatorText(separators[1..])
  }

  function ItemText(item: Item): string {
    item.text + SeparatorText(item.separators)
  }

  function Print(items: seq<Item>): string {
    if items == [] then "" else ItemText(items[0]) + Print(items[1..])
  }

  function PrintDocument(document: Document): string {
    SeparatorText(document.lead) + Print(document.items)
  }

  // ----- Which documents are printable

  predicate HasNoClose(block: string) {
    forall k | 0 <= k < |block| :: !CommentClose(block, k)
  }

  predicate ValidTrivia(t: Trivia, atEnd: bool) {
    match t
    case Space(c) => IsWhitespace(c)
    case LineComment(line, newline) => '\n' !in line && (newline || atEnd)
    case BlockComment(block) => HasNoClose(block)
  }

  predicate ValidSeparators(separators: seq<Trivia>, atEnd: bool) {
    separators == [] ||
    (ValidTrivia(separators[0], atEnd && |separators| == 1) && ValidSeparators(separators[1..], atEnd))
  }

  /** Every item spells its token, and at least one separator stands between two items. */
  predicate ValidItems(items: seq<Item>) {
    items == [] ||
    (var item := items[0];
     && Spells(item.text, item.token)
     && ValidSeparators(item.separators, |items| == 1)
     && (|items| > 1 ==> item.separators != [])
     && ValidItems(items[1..]))
  }

  predicate ValidDocument(document: Document) {
    ValidSeparators(document.lead, document.items == []) && ValidItems(document.items)
  }

  // ----- What lexing must return

  /** A minus sign that a line comment follows directly is read as part of the comment. */
  predicate Swallowed(item: Item) {
    item.token == Minus && item.separators != [] && item.separators[0].LineComment?
  }

  /** The lexemes of `items` printed from offset `i`. */
  function Expected(items: seq<Item>, i: nat): seq<Lexeme> {
    if items == [] then [Lexeme(Eof, i)]
    else
      (if Swallowed(items[0]) then [] else [Lexeme(items[0].token, i)])
      + Expected(items[1..], i + |ItemText(items[0])|)
  }

  function ReadToken(lexeme: Lexeme): Token {
    lexeme.token
  }

  function PrintedToken(item: Item): Token {
    item.token
  }

  // ----- Skipping separators

  lemma {:induction false} LineEndAfter(s: string, i: nat, line: string, rest: string)
    requires i <= |s| && s[i..] == line + rest && '\n' !in line
    requires rest != "" ==> rest[0] == '\n'
    ensures LineEnd(s, i) == i + |line|
    decreases |line|
  {
    SuffixAt(s, i, line, rest);
    if line != "" {
      assert s[i + 0] == line[0];
      assert s[i + 1..] == line[1..] + rest;
      LineEndAfter(s, i + 1, line[1..], rest);
    }
  }

  lemma BlockEndAfter(s: string, i: nat, block: string, rest: string)
    requires i <= |s| && s[i..] == block + ("*/" + rest) && HasNoClose(block)
    ensures BlockEnd(s, i) == Some(i + |block| + 2)
  {
    SuffixAt(s, i, block, "*/" + rest);
    SuffixAt(s, i + |block|, "*/", rest);
    var close := i + |block|;
    assert s[close + 0] == '*' && s[close + 1] == '/';
    assert CommentClose(s, close);
    forall k | i <= k < close
      ensures !CommentClose(s, k)
    {
      assert s[i + (k - i)] == block[k - i];
      if k + 1 < close {
        assert s[i + (k + 1 - i)] == block[k + 1 - i];
        assert !CommentClose(block, k - i);
      }
    }
  }

  lemma SkipLineComment(s: string, i: nat, line: string, newline: bool, rest: string)
    requires i <= |s| && '\n' !in line && (newline || rest == "")
    requires s[i..] == TriviaText(LineComment(line, newline)) + rest
    ensures SkipTrivia(s, i) == SkipTrivia(s, i + |TriviaText(LineComment(line, newline))|)
  {
    var text, tail := TriviaText(LineComment(line, newline)), if newline then "\n" + rest else rest;
    SuffixAt(s, i, text, rest);
    assert s[i..] == ("--" + line) + tail;
    assert s[i + 0] == text[0] && s[i + 1] == text[1];
    LineEndAfter(s, i, "--" + line, tail);
    if newline {
      assert s[i + (2 + |line|)] == text[2 + |line|] == '\n';
    }
  }

  lemma SkipBlockComment(s: string, i: nat, block: string, rest: string)
    requires i <= |s| && HasNoClose(block)
    requires s[i..] == TriviaText(BlockComment(block)) + rest
    ensures SkipTrivia(s, i) == SkipTrivia(s, i + |TriviaText(BlockComment(block))|)
  {
    var text := TriviaText(BlockComment(block));
    SuffixAt(s, i, text, rest);
    assert s[i + 0] == text[0] && s[i + 1] == text[1];
    assert s[i + 2..] == block + ("*/" + rest);
    BlockEndAfter(s, i + 2, block, rest);
  }

  lemma SkipOne(s: string, i: nat, t: Trivia, rest: string)
    requires i <= |s| && s[i..] == TriviaText(t) + rest && ValidTrivia(t, rest == "")
    ensures i + |TriviaText(t)| <= |s| && s[i + |TriviaText(t)|..] == rest
    ensures SkipTrivia(s, i) == SkipTrivia(s, i + |TriviaText(t)|)
  {
    SuffixAt(s, i, TriviaText(t), rest);
    match t
    case Space(c) => assert s[i + 0] == TriviaText(t)[0];
    case LineComment(line, newline) => SkipLineComment(s, i, line, newline, rest);
    case BlockComment(block) => SkipBlockComment(s, i, block, rest);
  }

  lemma {:induction false} SkipSeparators(s: string, i: nat, separators: seq<Trivia>, rest: string)
    requires i <= |s| && s[i..] == SeparatorText(separators) + rest && ValidSeparators(separators, rest == "")
    ensures i + |SeparatorText(separators)| <= |s| && s[i + |SeparatorText(separators)|..] == rest
    ensures SkipTrivia(s, i) == SkipTrivia(s, i + |SeparatorText(separators)|)
    decreases |separators|
  {
    hide SkipTrivia, TriviaText, ValidTrivia;
    if separators != [] {
      var head, tail := TriviaText(separators[0]), SeparatorText(separators[1..]);
      assert s[i..] == head + (tail + rest);
      if |separators| > 1 {
        ValidTriviaAnywhere(separators[0], tail + rest == "");
      }
      SkipOne(s, i, separators[0], tail + rest);
      SkipSeparators(s, i + |head|, separators[1..], rest);
    }
  }

  lemma ValidTriviaAnywhere(t: Trivia, atEnd: bool)
    requires ValidTrivia(t, false)
    ensures ValidTrivia(t, atEnd)
  {
  }

  lemma {:induction false} ValidSeparatorsAnywhere(separators: seq<Trivia>, atEnd: bool)
    requires ValidSeparators(separators, false)
    ensures ValidSeparators(separators, atEnd)
    decreases |separators|
  {
    if separators != [] {
      ValidTriviaAnywhere(separators[0], atEnd && |separators| == 1);
      ValidSeparatorsAnywhere(separators[1..], atEnd);
    }
  }

  // Lexing depends on the offset only through the place where the next token starts.
  lemma SameStartSameLex(s: string, i: nat, j: nat)
    requires i <= |s| && j <= |s| && SkipTrivia(s, i) == SkipTrivia(s, j)
    ensures Lex(s, i) == Lex(s, j)
  {
    hide SkipTrivia, NextToken;
  }

  lemma SeparatorsSeparate(separators: seq<Trivia>, atEnd: bool, rest: string)
    requires ValidSeparators(separators, atEnd) && (separators == [] ==> rest == "")
    ensures var after := SeparatorText(separators) + rest;
            && Separates(after)
            && (after != "" && after[0] == '-' <==> separators != [] && separators[0].LineComment?)
  {
    if separators != [] {
      var text := TriviaText(separators[0]);
      assert (SeparatorText(separators) + rest)[0] == text[0];
    }
  }

  // ----- The round trip

  lemma PrintIsEmpty(items: seq<Item>)
    requires ValidItems(items)
    ensures Print(items) == "" <==> items == []
  {
    if items != [] {
      SpellingNotEmpty(items[0].text, items[0].token);
    }
  }

  lemma SpellingNotEmpty(text: string, token: Token)
    requires Spells(text, token)
    ensures text != ""
  {
    SpellingIsRead(text, 0, text, token, "");
  }

  // A token's text does not start like whitespace or a comment, whatever follows it.
  lemma TokenIsNoTrivia(s: string, i: nat, text: string, token: Token, rest: string)
    requires i <= |s| && s[i..] == text + rest && Separates(rest) && Spells(text, token)
    requires token == Minus ==> (rest == "" || rest[0] != '-')
    ensures SkipTrivia(s, i) == Ok(i)
  {
    SuffixAt(s, i, text, rest);
    SpellingIsRead(s, i, text, token, rest);
    assert s[i + 0] == text[0];
    FirstCharacter(s, i);
    if s[i] == '-' {
      assert token == Minus && text == "-";
    }
  }

  lemma FirstCharacter(s: string, i: nat)
    requires i < |s| && NextToken(s, i).Ok?
    ensures !IsWhitespace(s[i]) && s[i] != '/'
    ensures s[i] == '-' ==> NextToken(s, i).value == (Minus, i + 1)
  {
  }

  /** A token followed by separators is read, and lexing goes on after the separators. */
  lemma LexOneItem(s: string, i: nat, item: Item, rest: string)
    requires i <= |s| && s[i..] == item.text + (SeparatorText(item.separators) + rest)
    requires Spells(item.text, item.token) && ValidSeparators(item.separators, rest == "")
    requires item.separators == [] ==> rest == ""
    requires !Swallowed(item)
    ensures i + |ItemText(item)| <= |s| && s[i + |ItemText(item)|..] == rest
    ensures Lex(s, i) == After([Lexeme(item.token, i)], Lex(s, i + |ItemText(item)|))
  {
    hide Lex, SkipTrivia, NextToken, Spells, ValidSeparators, SeparatorText;
    var after, end := SeparatorText(item.separators) + rest, i + |item.text|;
    SeparatorsSeparate(item.separators, rest == "", rest);
    TokenIsNoTrivia(s, i, item.text, item.token, after);
    SpellingIsRead(s, i, item.text, item.token, after);
    SuffixAt(s, i, item.text, after);
    SkipSeparators(s, end, item.separators, rest);
    LexToken(s, i, i, item.token, end);
    SameStartSameLex(s, end, i + |ItemText(item)|);
  }

  // A minus sign and the line comment that follows it make one longer line comment.
  lemma LongerComment(line: string, newline: bool, atEnd: bool)
    requires ValidTrivia(LineComment(line, newline), atEnd)
    ensures ValidTrivia(LineComment("-" + line, newline), atEnd)
    ensures TriviaText(LineComment("-" + line, newline)) == "-" + TriviaText(LineComment(line, newline))
  {
    assert "--" + ("-" + line) == "-" + ("--" + line);
  }

  lemma SwallowedText(item: Item, atEnd: bool) returns (separators: seq<Trivia>)
    requires Swallowed(item) && item.text == "-" && ValidSeparators(item.separators, atEnd)
    ensures ValidSeparators(separators, atEnd) && SeparatorText(separators) == ItemText(item)
  {
    hide TriviaText, ValidTrivia;
    var comment := item.separators[0];
    var longer := LineComment("-" + comment.line, comment.newline);
    LongerComment(comment.line, comment.newline, atEnd && |item.separators| == 1);
    separators := [longer] + item.separators[1..];
    assert separators[1..] == item.separators[1..];
  }

  /** A minus sign directly followed by a line comment extends the comment. */
  lemma LexSwallowedItem(s: string, i: nat, item: Item, rest: string)
    requires i <= |s| && s[i..] == item.text + (SeparatorText(item.separators) + rest)
    requires Spells(item.text, item.token) && ValidSeparators(item.separators, rest == "")
    requires Swallowed(item)
    ensures i + |ItemText(item)| <= |s| && s[i + |ItemText(item)|..] == rest
    ensures Lex(s, i) == Lex(s, i + |ItemText(item)|)
  {
    hide Lex, SkipTrivia, ValidSeparators, SeparatorText;
    var separators := SwallowedText(item, rest == "");
    assert s[i..] == SeparatorText(separators) + rest;
    SkipSeparators(s, i, separators, rest);
    SameStartSameLex(s, i, i + |ItemText(item)|);
  }

  lemma EndIsNoTrivia(s: string)
    ensures SkipTrivia(s, |s|) == Ok(|s|)
  {
  }

  lemma FirstItemParts(items: seq<Item>)
    requires ValidItems(items) && items != []
    ensures var item, rest := items[0], Print(items[1..]);
            && Print(items) == item.text + (SeparatorText(item.separators) + rest)
            && ValidSeparators(item.separators, rest == "")
            && (item.separators == [] ==> rest == "")
  {
    hide Spells, ValidSeparators, SeparatorText;
    PrintIsEmpty(items[1..]);
    if |items| > 1 {
      ValidSeparatorsAnywhere(items[0].separators, Print(items[1..]) == "");
    }
  }

  /** Lexing a printed list of items from its first offset gives the expected lexemes. */
  lemma {:induction false} LexPrinted(s: string, i: nat, items: seq<Item>)
    requires i <= |s| && s[i..] == Print(items) && ValidItems(items)
    ensures Lex(s, i) == Ok(Expected(items, i))
    decreases |items|
  {
    hide Lex, SkipTrivia, Spells, ValidSeparators, SeparatorText, Swallowed;
    if items == [] {
      EndIsNoTrivia(s);
      LexAtEnd(s, i);
    } else {
      var item, rest := items[0], Print(items[1..]);
      FirstItemParts(items);
      if Swallowed(item) {
        LexSwallowedItem(s, i, item, rest);
        LexPrinted(s, i + |ItemText(item)|, items[1..]);
        assert [] + Expected(items[1..], i + |ItemText(item)|) == Expected(items[1..], i + |ItemText(item)|);
      } else {
        LexOneItem(s, i, item, rest);
        LexPrinted(s, i + |ItemText(item)|, items[1..]);
      }
    }
  }

  /** Lexing any printable document succeeds with exactly the expected lexemes. */
  lemma LexDocument(document: Document)
    requires ValidDocument(document)
    ensures Lex(PrintDocument(document), 0)
         == Ok(Expected(document.items, |SeparatorText(document.lead)|))
  {
    hide Lex, SkipTrivia, Print, ValidItems, ValidSeparators, Expected;
    var s, rest := PrintDocument(document), Print(document.items);
    PrintIsEmpty(document.items);
    if document.items != [] {
      ValidSeparatorsAnywhere(document.lead, rest == "");
    }
    assert s[0..] == SeparatorText(document.lead) + rest;
    SkipSeparators(s, 0, document.lead, rest);
    SameStartSameLex(s, 0, |SeparatorText(document.lead)|);
    LexPrinted(s, |SeparatorText(document.lead)|, document.items);
  }

  predicate NoneSwallowed(items: seq<Item>) {
    forall k | 0 <= k < |items| :: !Swallowed(items[k])
  }

  lemma NoneSwallowedSplit(items: seq<Item>)
    requires items != []
    ensures NoneSwallowed(items) <==> !Swallowed(items[0]) && NoneSwallowed(items[1..])
  {
    if NoneSwallowed(items[1..]) && !Swallowed(items[0]) {
      forall k | 0 <= k < |items|
        ensures !Swallowed(items[k])
      {
        if k > 0 {
          assert items[k] == items[1..][k - 1];
        }
      }
    }
  }

  lemma {:induction false} ExpectedLength(items: seq<Item>, i: nat)
    ensures |Expected(items, i)| <= |items| + 1
    ensures |Expected(items, i)| == |items| + 1 <==> NoneSwallowed(items)
    decreases |items|
  {
    hide Swallowed, NoneSwallowed, ItemText;
    if items == [] {
      assert NoneSwallowed(items) by { NothingSwallowed(); }
    } else {
      ExpectedLength(items[1..], i + |ItemText(items[0])|);
      NoneSwallowedSplit(items);
    }
  }

  lemma NothingSwallowed()
    ensures NoneSwallowed([])
  {
  }

  lemma {:induction false} ExpectedTokens(items: seq<Item>, i: nat)
    requires NoneSwallowed(items)
    ensures Map(ReadToken, Expected(items, i)) == Map(PrintedToken, items) + [Eof]
    decreases |items|
  {
    hide Swallowed, NoneSwallowed, ItemText;
    if items == [] {
      assert Expected(items, i) == [Lexeme(Eof, i)] && ReadToken(Lexeme(Eof, i)) == Eof;
    } else {
      var next := i + |ItemText(items[0])|;
      NoneSwallowedSplit(items);
      ExpectedTokens(items[1..], next);
      assert Expected(items, i)[1..] == Expected(items[1..], next);
      MapHead(ReadToken, Expected(items, i));
      MapHead(PrintedToken, items);
      assert ReadToken(Expected(items, i)[0]) == PrintedToken(items[0]);
    }
  }

  /**
   The round trip: tokenizing a printed document returns its tokens and one final
   `Eof` exactly when no minus sign is directly followed by a line comment.
   */
  lemma RoundTrip(document: Document)
    requires ValidDocument(document)
    ensures Lex(PrintDocument(document), 0).Ok?
    ensures Map(ReadToken, Lex(PrintDocument(document), 0).value) == Map(PrintedToken, document.items) + [Eof]
       <==> forall k :: 0 <= k < |document.items| ==> !Swallowed(document.items[k])
  {
    hide Lex, Expected, ValidDocument, PrintDocument;
    var start := |SeparatorText(document.lead)|;
    LexDocument(document);
    ExpectedLength(document.items, start);
    if NoneSwallowed(document.items) {
      ExpectedTokens(document.items, start);
    }
  }

  lemma LoneMinus(items: seq<Item>, separators: seq<Trivia>)
    requires separators == [LineComment("", false)] && items == [Item(Minus, "-", separators)]
    ensures ValidItems(items) && Print(items) == "---" && Expected(items, 0) == [Lexeme(Eof, 3)]
  {
    assert separators[1..] == [] && items[1..] == [];
    assert SeparatorText(separators) == "--";
    assert ItemText(items[0]) == "---";
    assert Expected(items[1..], 3) == [Lexeme(Eof, 3)];
  }

  /** The exception is real: `-` and a line comment print to a document without tokens. */
  lemma MinusBeforeLineComment()
    ensures var document := Document([], [Item(Minus, "-", [LineComment("", false)])]);
            && ValidDocument(document)
            && PrintDocument(document) == "---"
            && Lex("---", 0) == Ok([Lexeme(Eof, 3)])
  {
    hide Lex, Print, Expected, ValidItems;
    var separators := [LineComment("", false)];
    var items := [Item(Minus, "-", separators)];
    LoneMinus(items, separators);
    assert PrintDocument(Document([], items)) == "---";
    LexDocument(Document([], items));
  }

  // ----- The converse: what a successful run says about any text

  /** Lexemes in order, each spelled where it starts, with only trivia in between and `Eof` at the end. */
  ghost predicate Tiles(s: string, i: nat, lexemes: seq<Lexeme>)
    requires i <= |s|
    decreases |lexemes|
  {
    && lexemes != []
    && SkipTrivia(s, i) == Ok(lexemes[0].start)
    && if |lexemes| == 1 then lexemes[0] == Lexeme(Eof, |s|)
       else exists end: nat ::
         && lexemes[0].start < end <= |s|
         && Spells(s[lexemes[0].start..end], lexemes[0].token)
         && Tiles(s, end, lexemes[1..])
  }

  /** Every text that tokenizes is covered by its tokens, in order, and by trivia. */
  lemma {:induction false} LexTiles(s: string, i: nat)
    requires i <= |s| && Lex(s, i).Ok?
    ensures Tiles(s, i, Lex(s, i).value)
    decreases |s| - i
  {
    var start := SkipTrivia(s, i).value;
    var (token, end) := NextToken(s, start).value;
    if token != Eof {
      TokenIsSpelled(s, start);
      LexTiles(s, end);
      var lexemes := Lex(s, i).value;
      assert lexemes[1..] == Lex(s, end).value;
      assert Tiles(s, end, lexemes[1..]);
    }
  }
}
