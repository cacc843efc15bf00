/** The SQL lexer (`sql/lexer.c`) and its round trip: any sequence of lexemes, written with any
    white space between them, is read back as the same lexemes. */
module SqlLexer {
  import opened Basics
  import opened Text

  datatype Kind =
    | Identifier | StringLit | Number
    | Star | Equals | Comma | LParen | RParen | Semicolon
    | End

  datatype Token = Token(kind: Kind, text: string, position: nat)

  datatype LexError = UnterminatedString(position: nat) | UnexpectedCharacter(position: nat)

  predicate IsWordChar(c: char) { IsAlpha(c) || IsDigit(c) || c == '_' || c >= '\U{80}' }

  /** The length of the word at the front. */
  function WordLength(rest: string): (n: nat)
    ensures n <= |rest| && (n < |rest| ==> !IsWordChar(rest[n]))
    ensures forall i :: 0 <= i < n ==> IsWordChar(rest[i])
  {
    if rest == "" || !IsWordChar(rest[0]) then 0 else 1 + WordLength(rest[1..])
  }

  /** The body of a string literal: its text, how much is read, and whether a closing quote ended it. */
  datatype Literal = Literal(text: string, length: nat, closed: bool)

  function ReadLiteral(rest: string): (l: Literal)
    ensures l.length <= |rest|
    ensures !l.closed ==> l.length == |rest|
    ensures l.closed ==> 0 < l.length && rest[l.length - 1] == '\''
    decreases |rest|
  {
    if rest == "" then Literal("", 0, false)
    else if rest[0] == '\'' then
      if |rest| > 1 && rest[1] == '\'' then
        var l := ReadLiteral(rest[2..]);
        Literal("'" + l.text, l.length + 2, l.closed)
      else Literal("", 1, true)
    else
      var l := ReadLiteral(rest[1..]);
      Literal([rest[0]] + l.text, l.length + 1, l.closed)
  }

  /** The lexer accepts a literal if the last byte it read is a quote. */
  predicate Accepted(rest: string)
    requires rest != "" && rest[0] == '\''
  {
    rest[ReadLiteral(rest[1..]).length] == '\''
  }

  /** Closed literals are accepted; an unclosed one is accepted exactly when the input happens to end
      in a quote. */
  lemma AcceptedWhen(rest: string)
    requires rest != "" && rest[0] == '\''
    ensures Accepted(rest) <==> ReadLiteral(rest[1..]).closed || rest[|rest| - 1] == '\''
  {
    var l := ReadLiteral(rest[1..]);
    if l.closed {
      assert rest[1..][l.length - 1] == rest[l.length];
    }
  }

  /** An unclosed literal that the lexer takes for a string. */
  lemma UnclosedAccepted() returns (input: string)
    ensures input == "'abc''" && !ReadLiteral(input[1..]).closed && Accepted(input)
    ensures LexFrom(input, 0) == Ok([Token(StringLit, "abc'", 0), Token(End, "", 6)])
  {
    hide LexFrom, ReadLiteral, Prepend;
    input := "'abc''";
    assert input[1..] == "abc''";
    UnclosedText();
    assert input[6..] == "" && input[5] == '\'';
    LexNothing(6);
    LexStep(input, 0);
    PrependOk(Token(StringLit, "abc'", 0), [Token(End, "", 6)]);
    assert [Token(StringLit, "abc'", 0)] + [Token(End, "", 6)] == [Token(StringLit, "abc'", 0), Token(End, "", 6)];
  }

  lemma UnclosedText()
    ensures ReadLiteral("abc''") == Literal("abc'", 5, false)
  {
    hide ReadLiteral;
    DoubledQuote();
    LiteralOf('c', "''", "c''", Literal("'", 2, false), "c'");
    LiteralOf('b', "c''", "bc''", Literal("c'", 3, false), "bc'");
    LiteralOf('a', "bc''", "abc''", Literal("bc'", 4, false), "abc'");
  }

  lemma DoubledQuote()
    ensures ReadLiteral("''") == Literal("'", 2, false)
  {
    hide ReadLiteral;
    LiteralStep("");
    LiteralStep("''");
    assert "''"[2..] == "" && "'" + "" == "'";
  }

  /** Reading one byte more in front of a literal. */
  lemma LiteralOf(c: char, rest: string, whole: string, l: Literal, text: string)
    requires c != '\'' && whole == [c] + rest && text == [c] + l.text && ReadLiteral(rest) == l
    ensures ReadLiteral(whole) == Literal(text, l.length + 1, l.closed)
  {
    hide ReadLiteral;
    assert whole[1..] == rest;
    LiteralStep(whole);
  }

  function SymbolKind(c: char): Option<Kind> {
    match c
    case '*' => Some(Star)
    case '=' => Some(Equals)
    case ',' => Some(Comma)
    case '(' => Some(LParen)
    case ')' => Some(RParen)
    case ';' => Some(Semicolon)
    case _ => None
  }

  function Prepend(t: Token, r: Result<seq<Token>, LexError>): Result<seq<Token>, LexError> {
    if r.Err? then r else Ok([t] + r.value)
  }

  function WordKind(word: string): Kind
    requires word != ""
  {
    if IsDigit(word[0]) then Number else Identifier
  }

  /** The tokens of the text `rest`, which starts at position `pos` of the input. */
  function LexFrom(rest: string, pos: nat): Result<seq<Token>, LexError>
    decreases |rest|
  {
    if rest == "" then Ok([Token(End, "", pos)])
    else if IsSpace(rest[0]) then LexFrom(rest[1..], pos + 1)
    else if IsWordChar(rest[0]) then
      var n := WordLength(rest);
      Prepend(Token(WordKind(rest[..n]), rest[..n], pos), LexFrom(rest[n..], pos + n))
    else if rest[0] == '\'' then
      var l := ReadLiteral(rest[1..]);
      if !Accepted(rest) then Err(UnterminatedString(pos))
      else Prepend(Token(StringLit, l.text, pos), LexFrom(rest[l.length + 1..], pos + l.length + 1))
    else match SymbolKind(rest[0])
         case None => Err(UnexpectedCharacter(pos))
         case Some(kind) => Prepend(Token(kind, rest[..1], pos), LexFrom(rest[1..], pos + 1))
  }

  function Lex(input: string): Result<seq<Token>, LexError> { LexFrom(input, 0) }

  // ----- the lexer's loops -------------------------------------------------------------------

  method LexWord(input: string, start: nat) returns (index: nat)
    requires start <= |input|
    ensures index == start + WordLength(input[start..])
  {
    index := start;
    while index < |input| && IsWordChar(input[index])
      invariant start <= index <= |input|
      invariant start + WordLength(input[start..]) == index + WordLength(input[index..])
    {
      assert input[index..][1..] == input[index + 1..];
      index := index + 1;
    }
  }

  method LexString(input: string, start: nat) returns (text: string, index: nat)
    requires start < |input|
    ensures var l := ReadLiteral(input[start + 1..]);
            text == l.text && index == start + 1 + l.length
  {
    hide ReadLiteral;
    ghost var whole := ReadLiteral(input[start + 1..]);
    index := start + 1;
    text := "";
    assert "" + whole.text == whole.text;
    while index < |input|
      invariant start + 1 <= index <= |input|
      invariant var l := ReadLiteral(input[index..]);
                whole.text == text + l.text && start + 1 + whole.length == index + l.length
    {
      var current := input[index];
      ghost var before := text;
      LiteralStep(input[index..]);
      if current == '\'' {
        if index + 1 < |input| && input[index + 1] == '\'' {
          assert input[index..][2..] == input[index + 2..];
          index := index + 1;
        } else {
          index := index + 1;
          return;
        }
      } else {
        assert input[index..][1..] == input[index + 1..];
      }
      text := text + [current];
      index := index + 1;
      assert before + ([current] + ReadLiteral(input[index..]).text) == text + ReadLiteral(input[index..]).text;
    }
    LiteralStep(input[index..]);
    assert text + "" == text;
  }

  lemma LiteralStep(rest: string)
    ensures var l := ReadLiteral(rest);
            if rest == "" then l == Literal("", 0, false)
            else if rest[0] != '\'' then
              var m := ReadLiteral(rest[1..]);
              l == Literal([rest[0]] + m.text, m.length + 1, m.closed)
            else if |rest| > 1 && rest[1] == '\'' then
              var m := ReadLiteral(rest[2..]);
              l == Literal("'" + m.text, m.length + 2, m.closed)
            else l == Literal("", 1, true)
  {
  }

  /** Reads token after token; every index it touches is inside the text. */
  method LexSql(input: string) returns (r: Result<seq<Token>, LexError>)
    requires '\0' !in input
    ensures r == Lex(input)
  {
    hide LexFrom, ReadLiteral, WordLength, IsWordChar, IsSpace, After, Prepend, WordKind;
    var tokens: seq<Token> := [];
    var index := 0;
    AfterNothing(input);
    while index < |input|
      invariant 0 <= index <= |input|
      invariant Lex(input) == After(tokens, LexFrom(input[index..], index))
      decreases |input| - index
    {
      var current := input[index];
      var start := index;
      ghost var rest := input[index..];
      LexStep(rest, index);
      if IsSpace(current) {
        index := index + 1;
        assert rest[1..] == input[index..];
        continue;
      }
      var token;
      if IsWordChar(current) {
        index := LexWord(input, index);
        WordToken(input, start, index);
        token := Token(if IsDigit(input[start]) then Number else Identifier, input[start..index], start);
      } else if current == '\'' {
        var text;
        text, index := LexString(input, index);
        assert input[start + 1..] == rest[1..];
        if input[index - 1] != '\'' {
          AfterError(tokens, UnterminatedString(start));
          return Err(UnterminatedString(start));
        }
        token := Token(StringLit, text, start);
      } else {
        var kind := SymbolKind(current);
        if kind.None? {
          AfterError(tokens, UnexpectedCharacter(index));
          return Err(UnexpectedCharacter(index));
        }
        assert rest[..1] == [current];
        token := Token(kind.value, [current], index);
        index := index + 1;
      }
      assert rest[index - start..] == input[index..];
      AfterPrepend(tokens, token, LexFrom(input[index..], index));
      tokens := tokens + [token];
    }
    LexNothing(index);
    assert input[index..] == "";
    r := Ok(tokens + [Token(End, "", index)]);
    AfterEnd(tokens, index);
  }

  lemma AfterNothing(input: string)
    ensures Lex(input) == After([], LexFrom(input[0..], 0))
  {
    hide LexFrom;
    assert input[0..] == input;
    var r := LexFrom(input, 0);
    if r.Ok? { assert [] + r.value == r.value; }
  }

  lemma AfterEnd(tokens: seq<Token>, pos: nat)
    ensures After(tokens, Ok([Token(End, "", pos)])) == Ok(tokens + [Token(End, "", pos)])
  {
  }

  lemma AfterError(tokens: seq<Token>, error: LexError)
    ensures After(tokens, Err(error)) == Err(error)
  {
  }

  lemma WordToken(input: string, start: nat, end: nat)
    requires start < end <= |input|
    ensures input[start..][..end - start] == input[start..end]
    ensures WordKind(input[start..end]) == if IsDigit(input[start]) then Number else Identifier
  {
  }

  function After(tokens: seq<Token>, r: Result<seq<Token>, LexError>): Result<seq<Token>, LexError> {
    if r.Err? then r else Ok(tokens + r.value)
  }

  lemma AfterPrepend(tokens: seq<Token>, t: Token, r: Result<seq<Token>, LexError>)
    ensures After(tokens, Prepend(t, r)) == After(tokens + [t], r)
  {
    if r.Ok? { assert tokens + ([t] + r.value) == tokens + [t] + r.value; }
  }

  lemma LexNothing(pos: nat)
    ensures LexFrom("", pos) == Ok([Token(End, "", pos)])
  {
  }

  lemma LexStep(rest: string, pos: nat)
    requires rest != ""
    ensures LexFrom(rest, pos) ==
            if IsSpace(rest[0]) then LexFrom(rest[1..], pos + 1)
            else if IsWordChar(rest[0]) then
              var n := WordLength(rest);
              assert n > 0;
              Prepend(Token(WordKind(rest[..n]), rest[..n], pos), LexFrom(rest[n..], pos + n))
            else if rest[0] == '\'' then
              var l := ReadLiteral(rest[1..]);
              if !Accepted(rest) then Err(UnterminatedString(pos))
              else Prepend(Token(StringLit, l.text, pos), LexFrom(rest[l.length + 1..], pos + l.length + 1))
            else match SymbolKind(rest[0])
                 case None => Err(UnexpectedCharacter(pos))
                 case Some(kind) => Prepend(Token(kind, rest[..1], pos), LexFrom(rest[1..], pos + 1))
  {
  }

  // ----- the round trip ----------------------------------------------------------------------

  /** A token without its position. */
  datatype Lexeme = Lexeme(kind: Kind, text: string)

  function Lexemes(tokens: seq<Token>): seq<Lexeme> {
    seq(|tokens|, i requires 0 <= i < |tokens| => Lexeme(tokens[i].kind, tokens[i].text))
  }

  /** The bytes a word may hold: letters, digits, underscores and bytes outside ASCII. */
  predicate WordByte(c: char) { 'A' <= c <= 'Z' || 'a' <= c <= 'z' || '0' <= c <= '9' || c == '_' || c >= '\U{80}' }

  lemma WordBytes(text: string)
    ensures IsWord(text) <==> text != "" && forall i :: 0 <= i < |text| ==> IsWordChar(text[i])
  {
    assert forall c: char :: WordByte(c) <==> IsWordChar(c);
  }

  predicate IsWord(text: string) { text != "" && forall i :: 0 <= i < |text| ==> WordByte(text[i]) }

  function SymbolText(kind: Kind): string {
    match kind
    case Star => "*"
    case Equals => "="
    case Comma => ","
    case LParen => "("
    case RParen => ")"
    case Semicolon => ";"
    case _ => ""
  }

  /** What a lexeme of each kind may look like. */
  predicate WellFormed(l: Lexeme) {
    match l.kind
    case Identifier => IsWord(l.text) && !('0' <= l.text[0] <= '9')
    case Number => IsWord(l.text) && '0' <= l.text[0] <= '9'
    case StringLit => true
    case End => false
    case _ => l.text == SymbolText(l.kind)
  }

  function DoubleQuotes(text: string): string {
    if text == "" then "" else (if text[0] == '\'' then "''" else [text[0]]) + DoubleQuotes(text[1..])
  }

  /** How a lexeme is written. */
  function Spelling(l: Lexeme): string {
    if l.kind.StringLit? then "'" + DoubleQuotes(l.text) + "'" else l.text
  }

  predicate Blank(gap: string) { forall i :: 0 <= i < |gap| ==> IsSpace(gap[i]) }

  predicate WordLike(l: Lexeme) { l.kind.Identifier? || l.kind.Number? }

  /** Two lexemes that would run into each other without white space. */
  predicate NeedGap(a: Lexeme, b: Lexeme) {
    (WordLike(a) && WordLike(b)) || (a.kind.StringLit? && b.kind.StringLit?)
  }

  /** Lexemes written with `gaps[i]` before lexeme i and the last gap at the end. */
  function Render(ls: seq<Lexeme>, gaps: seq<string>): string
    requires |gaps| == |ls| + 1
  {
    gaps[0] + if ls == [] then "" else Spelling(ls[0]) + Render(ls[1..], gaps[1..])
  }

  predicate Renderable(ls: seq<Lexeme>, gaps: seq<string>) {
    && |gaps| == |ls| + 1
    && (forall i :: 0 <= i < |ls| ==> WellFormed(ls[i]))
    && (forall i :: 0 <= i < |gaps| ==> Blank(gaps[i]))
    && (forall i :: 0 <= i < |ls| - 1 && NeedGap(ls[i], ls[i + 1]) ==> gaps[i + 1] != "")
  }

  lemma {:induction false} SkipGap(gap: string, rest: string, pos: nat)
    requires Blank(gap)
    ensures LexFrom(gap + rest, pos) == LexFrom(rest, pos + |gap|)
    decreases |gap|
  {
    if gap == "" {
      assert gap + rest == rest;
    } else {
      assert (gap + rest)[1..] == gap[1..] + rest;
      SkipGap(gap[1..], rest, pos + 1);
      LexStep(gap + rest, pos);
    }
  }

  lemma {:induction false} WordLengthOf(text: string, rest: string)
    requires forall i :: 0 <= i < |text| ==> IsWordChar(text[i])
    requires rest == "" || !IsWordChar(rest[0])
    ensures WordLength(text + rest) == |text|
  {
    if text == "" {
      assert text + rest == rest;
    } else {
      assert (text + rest)[1..] == text[1..] + rest;
      WordLengthOf(text[1..], rest);
    }
  }

  lemma {:induction false} ReadDoubled(text: string, rest: string)
    requires rest == "" || rest[0] != '\''
    ensures ReadLiteral(DoubleQuotes(text) + "'" + rest) == Literal(text, |DoubleQuotes(text)| + 1, true)
    decreases |text|
  {
    hide ReadLiteral;
    var s := DoubleQuotes(text) + "'" + rest;
    LiteralStep(s);
    if text != "" {
      ReadDoubled(text[1..], rest);
      if text[0] == '\'' {
        assert s[2..] == DoubleQuotes(text[1..]) + "'" + rest;
      } else {
        assert s[1..] == DoubleQuotes(text[1..]) + "'" + rest;
      }
      assert [text[0]] + text[1..] == text;
    }
  }

  /** Text after which lexeme `l` cannot continue. */
  predicate Stops(l: Lexeme, rest: string) {
    && (WordLike(l) ==> rest == "" || !IsWordChar(rest[0]))
    && (l.kind.StringLit? ==> rest == "" || rest[0] != '\'')
  }

  lemma SpaceIsNoWord(c: char)
    requires IsSpace(c)
    ensures !IsWordChar(c) && c != '\'' && SymbolKind(c).None?
  {
  }

  /** A lexeme followed by text it cannot run into is read back as itself. */
  lemma ReadLexeme(l: Lexeme, rest: string, pos: nat)
    requires WellFormed(l) && Stops(l, rest)
    ensures LexFrom(Spelling(l) + rest, pos) ==
            Prepend(Token(l.kind, l.text, pos), LexFrom(rest, pos + |Spelling(l)|))
  {
    if WordLike(l) {
      ReadWord(l, rest, pos);
    } else if l.kind.StringLit? {
      ReadQuoted(l, rest, pos);
    } else {
      ReadSymbol(l, rest, pos);
    }
  }

  lemma ReadWord(l: Lexeme, rest: string, pos: nat)
    requires WellFormed(l) && Stops(l, rest) && WordLike(l)
    ensures LexFrom(l.text + rest, pos) == Prepend(Token(l.kind, l.text, pos), LexFrom(rest, pos + |l.text|))
  {
    hide LexFrom, ReadLiteral, WordLength;
    var s := l.text + rest;
    LexStep(s, pos);
    WordBytes(l.text);
    if IsSpace(s[0]) { SpaceIsNoWord(s[0]); }
    WordLengthOf(l.text, rest);
    assert s[..|l.text|] == l.text && s[|l.text|..] == rest;
  }

  lemma ReadQuoted(l: Lexeme, rest: string, pos: nat)
    requires Stops(l, rest) && l.kind.StringLit?
    ensures LexFrom(Spelling(l) + rest, pos) == Prepend(Token(l.kind, l.text, pos), LexFrom(rest, pos + |Spelling(l)|))
  {
    hide LexFrom, ReadLiteral, WordLength, DoubleQuotes, SymbolKind;
    var s := Spelling(l) + rest;
    QuotedParts(DoubleQuotes(l.text), rest);
    LexStep(s, pos);
    ReadDoubled(l.text, rest);
  }

  lemma QuotedParts(text: string, rest: string)
    ensures var s, n := "'" + text + "'" + rest, |text| + 1;
            s != "" && s[0] == '\'' && s[1..] == text + "'" + rest && s[n] == '\'' && s[n + 1..] == rest
  {
  }

  lemma ReadSymbol(l: Lexeme, rest: string, pos: nat)
    requires WellFormed(l) && !WordLike(l) && !l.kind.StringLit?
    ensures LexFrom(l.text + rest, pos) == Prepend(Token(l.kind, l.text, pos), LexFrom(rest, pos + |l.text|))
  {
    hide LexFrom, ReadLiteral, WordLength;
    var s := l.text + rest;
    LexStep(s, pos);
    if IsSpace(s[0]) { SpaceIsNoWord(s[0]); }
    assert s[..1] == l.text && s[1..] == rest;
  }

  /** The text after a lexeme starts with a gap or with the next lexeme. */
  lemma GapStops(ls: seq<Lexeme>, gaps: seq<string>)
    requires Renderable(ls, gaps) && ls != []
    ensures Stops(ls[0], Render(ls[1..], gaps[1..]))
  {
    var rest := Render(ls[1..], gaps[1..]);
    if gaps[1] != "" {
      assert rest[0] == gaps[1][0];
      SpaceIsNoWord(rest[0]);
    } else if |ls| > 1 {
      assert !NeedGap(ls[0], ls[1]);
      assert rest[0] == Spelling(ls[1])[0];
      FirstChar(ls[1]);
    }
  }

  lemma FirstChar(l: Lexeme)
    requires WellFormed(l)
    ensures Spelling(l) != ""
    ensures IsWordChar(Spelling(l)[0]) <==> WordLike(l)
    ensures Spelling(l)[0] == '\'' <==> l.kind.StringLit?
  {
  }

  lemma {:induction false} LexRendered(ls: seq<Lexeme>, gaps: seq<string>, pos: nat)
    requires Renderable(ls, gaps)
    ensures var r := LexFrom(Render(ls, gaps), pos);
            r.Ok? && Lexemes(r.value) == ls + [Lexeme(End, "")]
    decreases |ls|
  {
    hide LexFrom, Spelling, WellFormed, Render, Lexemes, Prepend, Stops;
    var at := pos + |gaps[0]|;
    RenderStep(ls, gaps);
    if ls == [] {
      SkipGap(gaps[0], "", pos);
      LexNothing(at);
      LexemesCons(Token(End, "", at), []);
    } else {
      var rest := Render(ls[1..], gaps[1..]);
      SkipGap(gaps[0], Spelling(ls[0]) + rest, pos);
      GapStops(ls, gaps);
      ReadLexeme(ls[0], rest, at);
      LexRendered(ls[1..], gaps[1..], at + |Spelling(ls[0])|);
      var more := LexFrom(rest, at + |Spelling(ls[0])|).value;
      PrependOk(Token(ls[0].kind, ls[0].text, at), more);
      LexemesCons(Token(ls[0].kind, ls[0].text, at), more);
      assert [ls[0]] + (ls[1..] + [Lexeme(End, "")]) == ls + [Lexeme(End, "")];
    }
  }

  lemma RenderStep(ls: seq<Lexeme>, gaps: seq<string>)
    requires |gaps| == |ls| + 1
    ensures Render(ls, gaps) == gaps[0] + if ls == [] then "" else Spelling(ls[0]) + Render(ls[1..], gaps[1..])
  {
  }

  lemma PrependOk(t: Token, more: seq<Token>)
    ensures Prepend(t, Ok(more)) == Ok([t] + more)
  {
  }

  lemma LexemesCons(t: Token, more: seq<Token>)
    ensures Lexemes([t] + more) == [Lexeme(t.kind, t.text)] + Lexemes(more)
    ensures more == [] ==> Lexemes([t]) == [Lexeme(t.kind, t.text)]
  {
    assert more == [] ==> [t] + more == [t];
  }

  /** Lexing undoes writing, whatever white space is used. */
  lemma LexRoundTrip(ls: seq<Lexeme>, gaps: seq<string>)
    requires Renderable(ls, gaps)
    ensures Lex(Render(ls, gaps)).Ok? && Lexemes(Lex(Render(ls, gaps)).value) == ls + [Lexeme(End, "")]
  {
    LexRendered(ls, gaps, 0);
  }

  // ----- where the end token is ---------------------------------------------------------------

  /** The end token comes last and nowhere else. */
  predicate EndsOnce(tokens: seq<Token>) {
    tokens != [] && forall i :: 0 <= i < |tokens| ==> (tokens[i].kind.End? <==> i == |tokens| - 1)
  }

  lemma WordStarts(rest: string)
    requires rest != ""
    ensures IsWordChar(rest[0]) ==> WordLength(rest) > 0
  {
  }

  lemma SymbolIsNoEnd(c: char)
    requires SymbolKind(c).Some?
    ensures !SymbolKind(c).value.End?
  {
  }

  lemma {:induction false} LexEndsOnce(rest: string, pos: nat)
    ensures LexFrom(rest, pos).Ok? ==> EndsOnce(LexFrom(rest, pos).value)
    decreases |rest|
  {
    hide LexFrom, ReadLiteral, WordLength, SymbolKind, IsSpace;
    if rest == "" {
      LexNothing(pos);
    } else {
      LexStep(rest, pos);
      WordStarts(rest);
      if SymbolKind(rest[0]).Some? { SymbolIsNoEnd(rest[0]); }
      LexEndsOnce(rest[Piece(rest)..], pos + Piece(rest));
    }
  }

  /** Every token but the last is a well-formed lexeme. */
  lemma {:induction false} TokensWellFormed(rest: string, pos: nat)
    requires LexFrom(rest, pos).Ok?
    ensures var tokens := LexFrom(rest, pos).value;
            && tokens != [] && Lexeme(tokens[|tokens| - 1].kind, tokens[|tokens| - 1].text) == Lexeme(End, "")
            && forall i :: 0 <= i < |tokens| - 1 ==> WellFormed(Lexeme(tokens[i].kind, tokens[i].text))
    decreases |rest|
  {
    hide LexFrom, ReadLiteral, WordLength, SymbolKind, IsSpace, IsWordChar, WellFormed;
    if rest == "" {
      LexNothing(pos);
    } else {
      LexStep(rest, pos);
      var n := Piece(rest);
      PieceWellFormed(rest);
      TokensWellFormed(rest[n..], pos + n);
    }
  }

  lemma PieceWellFormed(rest: string)
    requires rest != ""
    ensures var n := WordLength(rest);
            IsWordChar(rest[0]) ==> n > 0 && WellFormed(Lexeme(WordKind(rest[..n]), rest[..n]))
    ensures WellFormed(Lexeme(StringLit, ReadLiteral(rest[1..]).text))
    ensures SymbolKind(rest[0]).Some? ==> WellFormed(Lexeme(SymbolKind(rest[0]).value, rest[..1]))
  {
    hide ReadLiteral;
    if IsWordChar(rest[0]) { WordBytes(rest[..WordLength(rest)]); }
  }

  // ----- unclosed literals ---------------------------------------------------------------------

  /** How much the lexer reads at a time. */
  function Piece(rest: string): (n: nat)
    requires rest != ""
    ensures 0 < n <= |rest|
  {
    if IsSpace(rest[0]) then 1
    else if IsWordChar(rest[0]) then WordLength(rest)
    else if rest[0] == '\'' then ReadLiteral(rest[1..]).length + 1
    else 1
  }

  predicate StartsLiteral(rest: string) { rest != "" && rest[0] == '\'' && !IsSpace(rest[0]) && !IsWordChar(rest[0]) }

  /** Every literal the lexer reads is ended by a quote of its own. */
  predicate LiteralsClosed(rest: string)
    decreases |rest|
  {
    rest == "" || ((StartsLiteral(rest) ==> ReadLiteral(rest[1..]).closed) && LiteralsClosed(rest[Piece(rest)..]))
  }

  /** A literal that is not closed, though accepted, is the last token before the end. */
  lemma {:induction false} UnclosedIsLast(rest: string, pos: nat)
    requires LexFrom(rest, pos).Ok? && !LiteralsClosed(rest)
    ensures var tokens := LexFrom(rest, pos).value;
            |tokens| >= 2 && tokens[|tokens| - 2].kind.StringLit?
    decreases |rest|
  {
    hide LexFrom, ReadLiteral, WordLength, SymbolKind, IsSpace, IsWordChar;
    LexStep(rest, pos);
    var n := Piece(rest);
    if !LiteralsClosed(rest[n..]) {
      UnclosedIsLast(rest[n..], pos + n);
    } else {
      LexNothing(pos + n);
      assert rest[n..] == "";
    }
  }
}
