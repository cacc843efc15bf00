/** Lexer and parser together: from SQL text to a statement, and back. */
module Sql {
  import opened Basics
  import opened Text
  import opened SqlAst
  import L = SqlLexer
  import P = SqlParser

  /** The statement a text denotes, if the lexer and the parser accept it. */
  function ParseSql(sql: string): Option<Statement> {
    match L.Lex(sql)
    case Err(_) => None
    case Ok(tokens) => P.ParseStatement(tokens)
  }

  method ReadStatement(sql: string) returns (r: Option<Statement>)
    requires '\0' !in sql
    ensures r == ParseSql(sql)
  {
    var tokens := L.LexSql(sql);
    if tokens.Err? {
      return None;
    }
    L.LexEndsOnce(sql, 0);
    var state := new P.ParserState(tokens.value);
    r := state.Parse();
  }

  /** The lexer's leniency about unclosed literals is harmless: in every text that is accepted as a statement,
      every literal is closed, because a semicolon has to follow. */
  lemma AcceptedTextsClosed(sql: string)
    requires ParseSql(sql).Some?
    ensures L.LiteralsClosed(sql)
  {
    hide L.LexFrom, L.LiteralsClosed, P.ParseStatement, P.Spells;
    L.LexEndsOnce(sql, 0);
    var tokens, statement := L.Lex(sql).value, ParseSql(sql).value;
    P.ParseIff(tokens, statement);
    P.EndsInSemicolon(tokens, statement);
    if !L.LiteralsClosed(sql) { L.UnclosedIsLast(sql, 0); }
  }

  // ----- positions do not matter ---------------------------------------------------------------

  const END := L.Lexeme(L.End, "")

  /** Tokens for lexemes whose position is of no interest. */
  function Unplaced(ls: seq<L.Lexeme>): seq<L.Token> {
    seq(|ls|, i requires 0 <= i < |ls| => L.Token(ls[i].kind, ls[i].text, 0))
  }

  predicate SameLexemes(ts: seq<L.Token>, us: seq<L.Token>) {
    |ts| == |us| && forall i :: 0 <= i < |ts| ==> ts[i].kind == us[i].kind && ts[i].text == us[i].text
  }

  lemma {:induction false} SameList(ts: seq<L.Token>, us: seq<L.Token>, i: nat, item: P.Item, texts: seq<string>)
    requires SameLexemes(ts, us) && P.ListAt(ts, i, item, texts)
    ensures P.ListAt(us, i, item, texts)
    decreases |texts|
  {
    if |texts| > 1 { SameList(ts, us, i + 2, item, texts[1..]); }
  }

  lemma SameSpelling(ts: seq<L.Token>, us: seq<L.Token>, s: Statement)
    requires SameLexemes(ts, us) && P.Spells(ts, s)
    ensures P.Spells(us, s)
  {
    hide P.Spells;
    if s.Insert? { SameInsert(ts, us, s); } else { SameSelect(ts, us, s); }
  }

  lemma SameInsert(ts: seq<L.Token>, us: seq<L.Token>, s: Statement)
    requires SameLexemes(ts, us) && P.Spells(ts, s) && s.Insert?
    ensures P.Spells(us, s)
  {
    hide P.ListAt, EqualIgnoringCase;
    SameList(ts, us, 4, P.Name, s.columns);
    SameList(ts, us, 4 + 2 * |s.columns| - 1 + 3, P.Value, s.values);
  }

  lemma SameSelect(ts: seq<L.Token>, us: seq<L.Token>, s: Statement)
    requires SameLexemes(ts, us) && P.Spells(ts, s) && s.Select?
    ensures P.Spells(us, s)
  {
    hide P.ListAt, EqualIgnoringCase;
    if s.selection.List? { SameList(ts, us, 1, P.Name, s.selection.names); }
  }

  /** Any way to spell a statement -- keywords in any case, values quoted or plain -- written with any
      white space is read back as that statement. */
  lemma SqlRoundTrip(ls: seq<L.Lexeme>, gaps: seq<string>, s: Statement)
    requires L.Renderable(ls, gaps) && P.Spells(Unplaced(ls + [END]), s)
    ensures ParseSql(L.Render(ls, gaps)) == Some(s)
  {
    hide L.LexFrom, L.WellFormed, P.Spells, P.ParseStatement, L.Render;
    L.LexRoundTrip(ls, gaps);
    var ts := L.Lex(L.Render(ls, gaps)).value;
    L.LexEndsOnce(L.Render(ls, gaps), 0);
    assert SameLexemes(Unplaced(ls + [END]), ts) by {
      forall i | 0 <= i < |ts| ensures ts[i].kind == (ls + [END])[i].kind && ts[i].text == (ls + [END])[i].text {
        assert L.Lexemes(ts)[i] == (ls + [END])[i];
      }
    }
    SameSpelling(Unplaced(ls + [END]), ts, s);
    P.ParseIff(ts, s);
  }

  // ----- every statement can be written ----------------------------------------------------------

  function Word(text: string): L.Lexeme { L.Lexeme(L.Identifier, text) }

  const LEFT := L.Lexeme(L.LParen, "(")
  const RIGHT := L.Lexeme(L.RParen, ")")
  const COMMA := L.Lexeme(L.Comma, ",")
  const STAR := L.Lexeme(L.Star, "*")
  const EQUALS := L.Lexeme(L.Equals, "=")
  const SEMICOLON := L.Lexeme(L.Semicolon, ";")

  function Listing(items: seq<L.Lexeme>): seq<L.Lexeme> {
    if items == [] then [] else if |items| == 1 then items else [items[0], COMMA] + Listing(items[1..])
  }

  /** How a statement is written: the words used for the keywords, and which values, by number, are not quoted. */
  datatype Style = Style(insert: string, into: string, valuesWord: string, select: string, from: string,
    whereWord: string, plain: set<nat>)

  const CAPITALS := Style("INSERT", "INTO", "VALUES", "SELECT", "FROM", "WHERE", {})

  /** Every keyword in any mixture of cases. */
  predicate ValidStyle(st: Style) {
    && Spelled(st.insert, "INSERT") && Spelled(st.into, "INTO") && Spelled(st.valuesWord, "VALUES")
    && Spelled(st.select, "SELECT") && Spelled(st.from, "FROM") && Spelled(st.whereWord, "WHERE")
  }

  lemma CapitalsValid()
    ensures ValidStyle(CAPITALS)
  {
  }

  /** A value is quoted, or a plain word or number. */
  function ValueLexeme(plain: bool, value: string): L.Lexeme {
    if !plain || !L.IsWord(value) then L.Lexeme(L.StringLit, value)
    else if '0' <= value[0] <= '9' then L.Lexeme(L.Number, value)
    else Word(value)
  }

  function Names(names: seq<string>): seq<L.Lexeme> { seq(|names|, i requires 0 <= i < |names| => Word(names[i])) }

  function Values(st: Style, values: seq<string>): seq<L.Lexeme> {
    seq(|values|, i requires 0 <= i < |values| => ValueLexeme(i in st.plain, values[i]))
  }

  /** A statement written out in this style. */
  function Written(s: Statement, st: Style): seq<L.Lexeme> {
    match s
    case Insert(table, columns, values) =>
      [Word(st.insert), Word(st.into), Word(table), LEFT] + Listing(Names(columns))
      + [RIGHT, Word(st.valuesWord), LEFT] + Listing(Values(st, values)) + [RIGHT, SEMICOLON]
    case Select(table, selection, condition) =>
      [Word(st.select)] + (if selection.Star? then [STAR] else Listing(Names(selection.names)))
      + [Word(st.from), Word(table)]
      + (if condition.None? then []
         else [Word(st.whereWord), Word(condition.value.column), EQUALS,
               ValueLexeme(0 in st.plain, condition.value.value)])
      + [SEMICOLON]
  }

  predicate IsIdentifier(name: string) { L.IsWord(name) && !('0' <= name[0] <= '9') }

  /** Statements the grammar can express: proper names and non-empty lists. */
  predicate Writable(s: Statement) {
    match s
    case Insert(table, columns, values) =>
      IsIdentifier(table) && columns != [] && values != [] && forall c <- columns :: IsIdentifier(c)
    case Select(table, selection, condition) =>
      && IsIdentifier(table)
      && (selection.List? ==> selection.names != [] && forall c <- selection.names :: IsIdentifier(c))
      && (condition.Some? ==> IsIdentifier(condition.value.column))
  }

  lemma {:induction false} ListingLength(items: seq<L.Lexeme>)
    requires items != []
    ensures |Listing(items)| == 2 * |items| - 1
  {
    if |items| > 1 { ListingLength(items[1..]); }
  }

  /** Lexemes that stand for these texts in a list of such items. */
  predicate Stand(items: seq<L.Lexeme>, texts: seq<string>, item: P.Item) {
    |items| == |texts| && forall i :: 0 <= i < |items| ==>
      items[i].text == texts[i] && P.IsItem(item, L.Token(items[i].kind, items[i].text, 0))
  }

  lemma {:induction false} ListingParses(pre: seq<L.Lexeme>, items: seq<L.Lexeme>, post: seq<L.Lexeme>, item: P.Item,
      texts: seq<string>)
    requires items != [] && Stand(items, texts, item) && post != [] && !post[0].kind.Comma?
    ensures P.ListAt(Unplaced(pre + Listing(items) + post), |pre|, item, texts)
    decreases |items|
  {
    hide P.IsItem;
    var ts := Unplaced(pre + Listing(items) + post);
    ListingLength(items);
    if |items| > 1 {
      var pre' := pre + [items[0], COMMA];
      assert pre' + Listing(items[1..]) + post == pre + Listing(items) + post;
      ListingParses(pre', items[1..], post, item, texts[1..]);
    }
  }

  lemma NamesStand(names: seq<string>)
    ensures Stand(Names(names), names, P.Name)
  {
  }

  lemma ValuesStand(st: Style, values: seq<string>)
    ensures Stand(Values(st, values), values, P.Value)
  {
  }

  /** A keyword as written is a keyword to the parser, and a word to the lexer. */
  lemma KeywordWritten(word: string, keyword: string)
    requires Capitals(keyword) && keyword != "" && Spelled(word, keyword)
    ensures P.IsKeyword(L.Token(L.Identifier, word, 0), keyword) && L.WellFormed(Word(word))
  {
    SpelledIffEqual(word, keyword);
    SpelledLetters(word, keyword);
  }

  lemma KeywordsWritten(st: Style)
    requires ValidStyle(st)
    ensures P.IsKeyword(L.Token(L.Identifier, st.insert, 0), "INSERT") && L.WellFormed(Word(st.insert))
    ensures P.IsKeyword(L.Token(L.Identifier, st.into, 0), "INTO") && L.WellFormed(Word(st.into))
    ensures P.IsKeyword(L.Token(L.Identifier, st.valuesWord, 0), "VALUES") && L.WellFormed(Word(st.valuesWord))
    ensures P.IsKeyword(L.Token(L.Identifier, st.select, 0), "SELECT") && L.WellFormed(Word(st.select))
    ensures P.IsKeyword(L.Token(L.Identifier, st.from, 0), "FROM") && L.WellFormed(Word(st.from))
    ensures P.IsKeyword(L.Token(L.Identifier, st.whereWord, 0), "WHERE") && L.WellFormed(Word(st.whereWord))
  {
    hide Spelled, P.IsKeyword, L.WellFormed;
    KeywordWritten(st.insert, "INSERT");
    KeywordWritten(st.into, "INTO");
    KeywordWritten(st.valuesWord, "VALUES");
    KeywordWritten(st.select, "SELECT");
    KeywordWritten(st.from, "FROM");
    KeywordWritten(st.whereWord, "WHERE");
  }

  lemma WrittenInsert(s: Statement, st: Style)
    requires s.Insert? && Writable(s) && ValidStyle(st)
    ensures P.Spells(Unplaced(Written(s, st) + [END]), s)
  {
    hide P.ListAt, Listing, L.IsWord, P.IsKeyword, L.WellFormed, Spelled, Names, Values;
    KeywordsWritten(st);
    var head := [Word(st.insert), Word(st.into), Word(s.table), LEFT];
    var mid := [RIGHT, Word(st.valuesWord), LEFT];
    var tail := [RIGHT, SEMICOLON, END];
    NamesStand(s.columns);
    ValuesStand(st, s.values);
    var columns, values := Listing(Names(s.columns)), Listing(Values(st, s.values));
    ListingLength(Names(s.columns));
    ListingLength(Values(st, s.values));
    var all := Written(s, st) + [END];
    assert all == head + columns + (mid + values + tail);
    assert all == (head + columns + mid) + values + tail;
    ListingParses(head, Names(s.columns), mid + values + tail, P.Name, s.columns);
    ListingParses(head + columns + mid, Values(st, s.values), tail, P.Value, s.values);
  }

  lemma WrittenSelect(s: Statement, st: Style)
    requires s.Select? && Writable(s) && ValidStyle(st)
    ensures P.Spells(Unplaced(Written(s, st) + [END]), s)
  {
    hide P.ListAt, Listing, L.IsWord, P.IsKeyword, L.WellFormed, Spelled, Names;
    KeywordsWritten(st);
    if s.selection.List? {
      NamesStand(s.selection.names);
      WrittenNames(s, st);
      ListingLength(Names(s.selection.names));
    }
    if s.condition.Some? { ValueIsValue(0 in st.plain, s.condition.value.value); }
  }

  lemma ValueIsValue(plain: bool, value: string)
    ensures P.IsValue(L.Token(ValueLexeme(plain, value).kind, value, 0)) && ValueLexeme(plain, value).text == value
    ensures L.WellFormed(ValueLexeme(plain, value))
  {
  }

  lemma WrittenNames(s: Statement, st: Style)
    requires s.Select? && Writable(s) && s.selection.List?
    ensures P.ListAt(Unplaced(Written(s, st) + [END]), 1, P.Name, s.selection.names)
  {
    hide P.ListAt, Listing, L.IsWord, Names, ValueLexeme;
    var all, items := Written(s, st) + [END], Names(s.selection.names);
    NamesStand(s.selection.names);
    ListingLength(items);
    var n := 1 + |Listing(items)|;
    assert all == [Word(st.select)] + Listing(items) + all[n..];
    ListingParses([Word(st.select)], items, all[n..], P.Name, s.selection.names);
  }

  lemma {:induction false} ListingWellFormed(items: seq<L.Lexeme>)
    requires AllWellFormed(items)
    ensures AllWellFormed(Listing(items))
  {
    hide L.WellFormed;
    FixedWellFormed();
    if |items| > 1 { ListingWellFormed(items[1..]); }
  }

  predicate AllWellFormed(ls: seq<L.Lexeme>) { forall i :: 0 <= i < |ls| ==> L.WellFormed(ls[i]) }

  lemma FixedWellFormed()
    ensures L.WellFormed(LEFT) && L.WellFormed(RIGHT) && L.WellFormed(STAR) && L.WellFormed(EQUALS)
    ensures L.WellFormed(SEMICOLON) && L.WellFormed(COMMA)
  {
  }

  /** Every statement the grammar can express, written with keywords in any case, with each value quoted or, if it
      is a word or a number, plain, and with any white space, is read back as itself. */
  lemma WrittenRoundTrip(s: Statement, st: Style, gaps: seq<string>)
    requires Writable(s) && ValidStyle(st) && |gaps| == |Written(s, st)| + 1
    requires forall i :: 0 <= i < |gaps| ==> L.Blank(gaps[i])
    requires forall i :: 0 <= i < |gaps| - 2 && L.NeedGap(Written(s, st)[i], Written(s, st)[i + 1]) ==>
               gaps[i + 1] != ""
    ensures ParseSql(L.Render(Written(s, st), gaps)) == Some(s)
  {
    hide Written, L.WellFormed, P.Spells, L.Render, Writable, ParseSql, ValidStyle;
    WrittenWellFormed(s, st);
    if s.Insert? { WrittenInsert(s, st); } else { WrittenSelect(s, st); }
    SqlRoundTrip(Written(s, st), gaps, s);
  }

  lemma NamesWellFormed(names: seq<string>)
    requires forall n <- names :: IsIdentifier(n)
    ensures AllWellFormed(Names(names))
  {
    forall i | 0 <= i < |names| ensures L.WellFormed(Names(names)[i]) { assert names[i] in names; }
  }

  lemma ValuesWellFormed(st: Style, values: seq<string>)
    ensures AllWellFormed(Values(st, values))
  {
    hide L.WellFormed, ValueLexeme;
    forall i | 0 <= i < |values| ensures L.WellFormed(Values(st, values)[i]) { ValueIsValue(i in st.plain, values[i]); }
  }

  lemma NameWellFormed(name: string)
    requires IsIdentifier(name)
    ensures L.WellFormed(Word(name))
  {
  }

  lemma WrittenWellFormed(s: Statement, st: Style)
    requires Writable(s) && ValidStyle(st)
    ensures AllWellFormed(Written(s, st))
  {
    hide L.WellFormed, Listing, IsIdentifier, Names, Values, ValueLexeme, P.IsKeyword;
    FixedWellFormed();
    KeywordsWritten(st);
    NameWellFormed(s.table);
    match s
    case Insert(table, columns, values) =>
      NamesWellFormed(columns);
      ValuesWellFormed(st, values);
      ListingWellFormed(Names(columns));
      ListingWellFormed(Values(st, values));
    case Select(table, selection, condition) =>
      if selection.List? {
        NamesWellFormed(selection.names);
        ListingWellFormed(Names(selection.names));
      }
      if condition.Some? {
        NameWellFormed(condition.value.column);
        ValueIsValue(0 in st.plain, condition.value.value);
      }
  }

  /** A text whose first word is neither INSERT nor SELECT, in any case, is not a statement. */
  lemma OtherWordRefused(gap: string, word: string, rest: string)
    requires L.Blank(gap) && IsIdentifier(word) && (rest == "" || !L.WordByte(rest[0]))
    requires !Spelled(word, "INSERT") && !Spelled(word, "SELECT")
    ensures ParseSql(gap + (word + rest)) == None
  {
    hide L.LexFrom, Spelled, P.ParseList, P.ParseInsertAt, P.ParseColumnsAt;
    L.SkipGap(gap, word + rest, 0);
    L.ReadWord(Word(word), rest, |gap|);
    var tokens := L.Lex(gap + (word + rest));
    if tokens.Ok? {
      assert tokens.value[0] == L.Token(L.Identifier, word, |gap|);
      P.KeywordIs(tokens.value[0], "INSERT");
      P.KeywordIs(tokens.value[0], "SELECT");
    }
  }

  /** A column may be selected twice. */
  lemma SelectedTwiceParses()
    ensures ParseSql("SELECT a, a FROM t;") == Some(Select("t", List(["a", "a"]), None))
  {
    hide L.Render, Written, Writable, ParseSql, ValidStyle, L.NeedGap, L.Blank;
    var s := Select("t", List(["a", "a"]), None);
    CapitalsValid();
    TwiceWritten();
    TwiceGaps();
    RenderTwice();
    WrittenRoundTrip(s, CAPITALS, GAPS);
  }

  const GAPS := ["", " ", "", " ", " ", " ", "", ""]

  const TWICE := [Word("SELECT"), Word("a"), COMMA, Word("a"), Word("FROM"), Word("t"), SEMICOLON]

  lemma TwiceWritten()
    ensures var s := Select("t", List(["a", "a"]), None); Writable(s) && Written(s, CAPITALS) == TWICE
  {
    assert Listing(Names(["a", "a"])) == [Word("a"), COMMA, Word("a")] by {
      assert Names(["a", "a"]) == [Word("a"), Word("a")] && [Word("a"), Word("a")][1..] == [Word("a")];
    }
  }

  lemma TwiceGaps()
    ensures forall i :: 0 <= i < |GAPS| ==> L.Blank(GAPS[i])
    ensures forall i :: 0 <= i < |GAPS| - 2 && L.NeedGap(TWICE[i], TWICE[i + 1]) ==> GAPS[i + 1] != ""
  {
  }

  lemma RenderCons(gap: string, l: L.Lexeme, gaps: seq<string>, ls: seq<L.Lexeme>)
    requires |gaps| == |ls| + 1
    ensures L.Render([l] + ls, [gap] + gaps) == gap + (L.Spelling(l) + L.Render(ls, gaps))
  {
    assert ([l] + ls)[1..] == ls && ([gap] + gaps)[1..] == gaps;
  }

  lemma RenderTwice()
    ensures L.Render(TWICE, GAPS) == "SELECT a, a FROM t;"
  {
    RenderTail();
    hide L.Render;
    var ls, gaps := [Word("a"), Word("FROM"), Word("t"), SEMICOLON], [" ", " ", " ", "", ""];
    RenderCons("", COMMA, gaps, ls);
    RenderCons(" ", Word("a"), [""] + gaps, [COMMA] + ls);
    RenderCons("", Word("SELECT"), [" "] + ([""] + gaps), [Word("a")] + ([COMMA] + ls));
    assert [Word("SELECT")] + ([Word("a")] + ([COMMA] + ls)) ==
           [Word("SELECT"), Word("a"), COMMA, Word("a"), Word("FROM"), Word("t"), SEMICOLON];
    assert [""] + ([" "] + ([""] + gaps)) == ["", " ", "", " ", " ", " ", "", ""];
  }

  lemma RenderTail()
    ensures L.Render([Word("a"), Word("FROM"), Word("t"), SEMICOLON], [" ", " ", " ", "", ""]) == " a FROM t;"
  {
    RenderTable();
    hide L.Render;
    var ls, gaps := [Word("t"), SEMICOLON], [" ", "", ""];
    RenderCons(" ", Word("FROM"), gaps, ls);
    RenderCons(" ", Word("a"), [" "] + gaps, [Word("FROM")] + ls);
    assert [Word("a")] + ([Word("FROM")] + ls) == [Word("a"), Word("FROM"), Word("t"), SEMICOLON];
    assert [" "] + ([" "] + gaps) == [" ", " ", " ", "", ""];
  }

  lemma RenderTable()
    ensures L.Render([Word("t"), SEMICOLON], [" ", "", ""]) == " t;"
  {
    assert L.Render([], [""]) == "";
    hide L.Render;
    RenderCons("", SEMICOLON, [""], []);
    RenderCons(" ", Word("t"), [""] + [""], [SEMICOLON] + []);
    assert [Word("t")] + ([SEMICOLON] + []) == [Word("t"), SEMICOLON] && [" "] + ([""] + [""]) == [" ", "", ""];
  }
}
