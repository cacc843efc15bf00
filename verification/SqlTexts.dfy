/** Exactly which texts are which statements: the tokens of an accepted text are the statement written out, with the
    keywords in any case and each value quoted or plain, and with nothing before, between or behind. */
module SqlTexts {
  import opened Basics
  import opened Text
  import opened SqlAst
  import opened Sql
  import L = SqlLexer
  import P = SqlParser

  type Tokens = seq<L.Token>

  function LexemeOf(t: L.Token): L.Lexeme { L.Lexeme(t.kind, t.text) }

  /** Tokens as the lexer produces them. */
  predicate Lexed(ts: Tokens) {
    && ts != [] && LexemeOf(ts[|ts| - 1]) == END
    && forall i :: 0 <= i < |ts| - 1 ==> L.WellFormed(LexemeOf(ts[i]))
  }

  lemma SqlLexed(sql: string)
    requires L.Lex(sql).Ok?
    ensures Lexed(L.Lex(sql).value)
  {
    hide L.LexFrom, L.WellFormed;
    L.TokensWellFormed(sql, 0);
  }

  /** The items of a list of `n` that starts at position `i`. */
  function ItemsAt(ts: Tokens, i: nat, n: nat): seq<L.Lexeme>
    requires n > 0 ==> i + 2 * n - 2 < |ts|
  {
    seq(n, j requires 0 <= j < n => LexemeOf(ts[i + 2 * j]))
  }

  lemma {:induction false} ListSlice(ts: Tokens, i: nat, item: P.Item, texts: seq<string>)
    requires Lexed(ts) && P.ListAt(ts, i, item, texts)
    ensures texts != [] && i + 2 * |texts| - 1 < |ts|
    ensures L.Lexemes(ts)[i..i + 2 * |texts| - 1] == Listing(ItemsAt(ts, i, |texts|))
    decreases |texts|
  {
    hide L.WellFormed, P.IsItem, ItemsAt, Lexed;
    P.ListEnd(ts, i, item, texts);
    var n := |texts|;
    ItemsCons(ts, i, n);
    if n == 1 {
      assert L.Lexemes(ts)[i..i + 1] == [LexemeOf(ts[i])];
    } else {
      ListSlice(ts, i + 2, item, texts[1..]);
      CommaText(ts, i + 1);
      FirstTwo(L.Lexemes(ts), i, i + 2 * n - 1);
    }
  }

  lemma ItemsCons(ts: Tokens, i: nat, n: nat)
    requires n > 0 && i + 2 * n - 2 < |ts|
    ensures |ItemsAt(ts, i, n)| == n && ItemsAt(ts, i, n)[0] == LexemeOf(ts[i])
    ensures n == 1 ==> ItemsAt(ts, i, n) == [LexemeOf(ts[i])]
    ensures n > 1 ==> ItemsAt(ts, i, n)[1..] == ItemsAt(ts, i + 2, n - 1)
  {
    var items := ItemsAt(ts, i, n);
    if n > 1 {
      forall j | 0 <= j < n - 1 ensures items[1..][j] == ItemsAt(ts, i + 2, n - 1)[j] {
        assert items[1..][j] == items[j + 1];
        assert i + 2 * (j + 1) == i + 2 + 2 * j;
      }
    }
  }

  lemma FirstTwo(ls: seq<L.Lexeme>, i: nat, end: nat)
    requires i + 2 <= end <= |ls|
    ensures ls[i..end] == [ls[i], ls[i + 1]] + ls[i + 2..end]
  {
  }

  lemma CommaText(ts: Tokens, i: nat)
    requires Lexed(ts) && i < |ts| && ts[i].kind.Comma?
    ensures LexemeOf(ts[i]) == COMMA
  {
    if i < |ts| - 1 { assert L.WellFormed(LexemeOf(ts[i])); }
  }

  /** The texts of a list are those of its items, and all are items of the right kind. */
  lemma {:induction false} ListItems(ts: Tokens, i: nat, item: P.Item, texts: seq<string>, j: nat)
    requires Lexed(ts) && P.ListAt(ts, i, item, texts) && j < |texts|
    ensures i + 2 * j < |ts| - 1 && ts[i + 2 * j].text == texts[j] && P.IsItem(item, ts[i + 2 * j])
    decreases |texts|
  {
    hide P.IsItem;
    if j > 0 { ListItems(ts, i + 2, item, texts[1..], j - 1); }
  }

  lemma NamesAt(ts: Tokens, i: nat, names: seq<string>)
    requires Lexed(ts) && P.ListAt(ts, i, P.Name, names)
    ensures names != [] && i + 2 * |names| - 2 < |ts| && ItemsAt(ts, i, |names|) == Names(names)
    ensures forall name <- names :: IsIdentifier(name)
  {
    hide P.ListAt, L.IsWord;
    ListSlice(ts, i, P.Name, names);
    forall j | 0 <= j < |names| ensures ItemsAt(ts, i, |names|)[j] == Word(names[j]) && IsIdentifier(names[j]) {
      ListItems(ts, i, P.Name, names, j);
      assert L.WellFormed(LexemeOf(ts[i + 2 * j]));
    }
  }

  /** A value token is the value written quoted or plain. */
  lemma ValueAt(ts: Tokens, i: nat)
    requires Lexed(ts) && i < |ts| - 1 && P.IsValue(ts[i])
    ensures LexemeOf(ts[i]) == ValueLexeme(!ts[i].kind.StringLit?, ts[i].text)
  {
    assert L.WellFormed(LexemeOf(ts[i]));
  }

  lemma ValueItem(ts: Tokens, i: nat, values: seq<string>, j: nat)
    requires Lexed(ts) && P.ListAt(ts, i, P.Value, values) && j < |values|
    ensures i + 2 * j < |ts| && LexemeOf(ts[i + 2 * j]) == ValueLexeme(j in PlainAt(ts, i, |values|), values[j])
  {
    hide P.ListAt, L.IsWord, ValueLexeme, Lexed;
    ListItems(ts, i, P.Value, values, j);
    ValueAt(ts, i + 2 * j);
    assert j in PlainAt(ts, i, |values|) <==> !ts[i + 2 * j].kind.StringLit?;
  }

  lemma ValuesAt(ts: Tokens, i: nat, values: seq<string>, st: Style)
    requires Lexed(ts) && P.ListAt(ts, i, P.Value, values) && st.plain == PlainAt(ts, i, |values|)
    ensures values != [] && i + 2 * |values| - 2 < |ts| && ItemsAt(ts, i, |values|) == Values(st, values)
  {
    hide P.ListAt, L.IsWord, ValueLexeme, PlainAt, Lexed;
    ListSlice(ts, i, P.Value, values);
    var items, written := ItemsAt(ts, i, |values|), Values(st, values);
    forall j | 0 <= j < |values| ensures items[j] == written[j] { ValueItem(ts, i, values, j); }
    assert items == written;
  }

  function PlainAt(ts: Tokens, i: nat, n: nat): set<nat> {
    set j: nat | j < n && i + 2 * j < |ts| && !ts[i + 2 * j].kind.StringLit?
  }

  lemma KeywordSpelled(t: L.Token, keyword: string)
    requires Capitals(keyword) && P.IsKeyword(t, keyword)
    ensures LexemeOf(t) == Word(t.text) && Spelled(t.text, keyword)
  {
    P.KeywordIs(t, keyword);
  }

  lemma SymbolAt(ts: Tokens, i: nat)
    requires Lexed(ts) && i < |ts| - 1
    ensures ts[i].kind.LParen? ==> LexemeOf(ts[i]) == LEFT
    ensures ts[i].kind.RParen? ==> LexemeOf(ts[i]) == RIGHT
    ensures ts[i].kind.Star? ==> LexemeOf(ts[i]) == STAR
    ensures ts[i].kind.Equals? ==> LexemeOf(ts[i]) == EQUALS
    ensures ts[i].kind.Semicolon? ==> LexemeOf(ts[i]) == SEMICOLON
    ensures ts[i].kind.Identifier? ==> LexemeOf(ts[i]) == Word(ts[i].text) && IsIdentifier(ts[i].text)
  {
    assert L.WellFormed(LexemeOf(ts[i]));
  }

  lemma InsertWritten(ts: Tokens, s: Statement) returns (st: Style)
    requires Lexed(ts) && s.Insert? && P.Spells(ts, s)
    ensures ValidStyle(st) && Writable(s) && L.Lexemes(ts) == Written(s, st) + [END]
  {
    hide P.ListAt, L.WellFormed, P.IsKeyword, Listing, Names, Values, ItemsAt, Spelled, IsIdentifier;
    hide L.Lexemes;
    var i := 4 + 2 * |s.columns| - 1;
    var j := i + 3 + 2 * |s.values| - 1;
    st := CAPITALS.(insert := ts[0].text, into := ts[1].text, valuesWord := ts[i + 1].text,
                    plain := PlainAt(ts, i + 3, |s.values|));
    CapitalsValid();
    KeywordSpelled(ts[0], "INSERT");
    KeywordSpelled(ts[1], "INTO");
    KeywordSpelled(ts[i + 1], "VALUES");
    SymbolAt(ts, 2);
    SymbolAt(ts, 3);
    SymbolAt(ts, i);
    SymbolAt(ts, i + 2);
    SymbolAt(ts, j);
    SymbolAt(ts, j + 1);
    ListSlice(ts, 4, P.Name, s.columns);
    ListSlice(ts, i + 3, P.Value, s.values);
    NamesAt(ts, 4, s.columns);
    ValuesAt(ts, i + 3, s.values, st);
    InsertJoined(ts, s, st, i, j);
  }

  lemma InsertJoined(ts: Tokens, s: Statement, st: Style, i: nat, j: nat)
    requires s.Insert? && 4 <= i && i + 3 <= j && |ts| == j + 3
    requires LexemeOf(ts[0]) == Word(st.insert) && LexemeOf(ts[1]) == Word(st.into) && LexemeOf(ts[2]) == Word(s.table)
    requires LexemeOf(ts[3]) == LEFT && L.Lexemes(ts)[4..i] == Listing(Names(s.columns))
    requires LexemeOf(ts[i]) == RIGHT && LexemeOf(ts[i + 1]) == Word(st.valuesWord) && LexemeOf(ts[i + 2]) == LEFT
    requires L.Lexemes(ts)[i + 3..j] == Listing(Values(st, s.values))
    requires LexemeOf(ts[j]) == RIGHT && LexemeOf(ts[j + 1]) == SEMICOLON && LexemeOf(ts[j + 2]) == END
    ensures L.Lexemes(ts) == Written(s, st) + [END]
  {
    hide Listing, Names, Values;
    var ls := L.Lexemes(ts);
    assert ls[..4] == [Word(st.insert), Word(st.into), Word(s.table), LEFT];
    assert ls[i..i + 3] == [RIGHT, Word(st.valuesWord), LEFT];
    assert ls[j..] == [RIGHT, SEMICOLON, END];
    assert ls == ls[..4] + ls[4..i] + ls[i..i + 3] + ls[i + 3..j] + ls[j..];
  }

  lemma ConditionSlice(ts: Tokens, i: nat, c: Condition)
    requires Lexed(ts) && i + 6 < |ts| && P.IsKeyword(ts[i + 2], "WHERE")
    requires P.IsName(ts[i + 3]) && ts[i + 3].text == c.column
    requires ts[i + 4].kind.Equals? && P.IsValue(ts[i + 5]) && ts[i + 5].text == c.value
    ensures Spelled(ts[i + 2].text, "WHERE") && IsIdentifier(c.column)
    ensures L.Lexemes(ts)[i + 2..i + 6] ==
            [Word(ts[i + 2].text), Word(c.column), EQUALS, ValueLexeme(!ts[i + 5].kind.StringLit?, c.value)]
  {
    hide L.WellFormed, P.IsKeyword, Spelled, IsIdentifier, ValueLexeme, Lexed;
    KeywordSpelled(ts[i + 2], "WHERE");
    SymbolAt(ts, i + 3);
    SymbolAt(ts, i + 4);
    ValueAt(ts, i + 5);
  }

  lemma ColumnsSlice(ts: Tokens, selection: Columns)
    requires Lexed(ts) && |ts| > 2
    requires if selection.Star? then ts[1].kind.Star? else P.ListAt(ts, 1, P.Name, selection.names)
    ensures var i := if selection.Star? then 2 else 1 + 2 * |selection.names| - 1;
            && 1 <= i < |ts|
            && L.Lexemes(ts)[1..i] == if selection.Star? then [STAR] else Listing(Names(selection.names))
    ensures selection.List? ==> selection.names != [] && forall name <- selection.names :: IsIdentifier(name)
  {
    hide P.ListAt, L.WellFormed, Listing, Names, IsIdentifier, ItemsAt, Lexed;
    if selection.Star? {
      SymbolAt(ts, 1);
    } else {
      ListSlice(ts, 1, P.Name, selection.names);
      NamesAt(ts, 1, selection.names);
    }
  }

  lemma SelectWritten(ts: Tokens, s: Statement) returns (st: Style)
    requires Lexed(ts) && s.Select? && P.Spells(ts, s)
    ensures ValidStyle(st) && Writable(s) && L.Lexemes(ts) == Written(s, st) + [END]
  {
    hide P.ListAt, L.WellFormed, P.IsKeyword, Listing, Names, Spelled, IsIdentifier, ValueLexeme, L.Lexemes;
    var i := if s.selection.Star? then 2 else 1 + 2 * |s.selection.names| - 1;
    var j := i + 2 + if s.condition.Some? then 4 else 0;
    CapitalsValid();
    st := CAPITALS.(select := ts[0].text, from := ts[i].text);
    KeywordSpelled(ts[0], "SELECT");
    KeywordSpelled(ts[i], "FROM");
    SymbolAt(ts, i + 1);
    SymbolAt(ts, j);
    ColumnsSlice(ts, s.selection);
    if s.condition.Some? {
      ConditionSlice(ts, i, s.condition.value);
      st := st.(whereWord := ts[i + 2].text, plain := if ts[i + 5].kind.StringLit? then {} else {0});
    }
    SelectJoined(ts, s, st, i, j);
  }

  lemma SelectJoined(ts: Tokens, s: Statement, st: Style, i: nat, j: nat)
    requires s.Select? && 1 <= i && j == i + 2 + (if s.condition.Some? then 4 else 0) && |ts| == j + 2
    requires L.Lexemes(ts)[1..i] == if s.selection.Star? then [STAR] else Listing(Names(s.selection.names))
    requires LexemeOf(ts[0]) == Word(st.select)
    requires LexemeOf(ts[i]) == Word(st.from) && LexemeOf(ts[i + 1]) == Word(s.table)
    requires s.condition.Some? ==>
               L.Lexemes(ts)[i + 2..i + 6] == [Word(st.whereWord), Word(s.condition.value.column), EQUALS,
                                               ValueLexeme(0 in st.plain, s.condition.value.value)]
    requires LexemeOf(ts[j]) == SEMICOLON && LexemeOf(ts[j + 1]) == END
    ensures L.Lexemes(ts) == Written(s, st) + [END]
  {
    hide Listing, Names, ValueLexeme, L.Lexemes;
    LexemesAre(ts);
    var ls := L.Lexemes(ts);
    var rest := if s.condition.None? then []
                else [Word(st.whereWord), Word(s.condition.value.column), EQUALS,
                      ValueLexeme(0 in st.plain, s.condition.value.value)];
    SliceOf(ls, i, j, rest);
    assert s.condition.None? ==> ls[i + 2..j] == [];
  }

  lemma LexemesAre(ts: Tokens)
    ensures |L.Lexemes(ts)| == |ts| && forall i :: 0 <= i < |ts| ==> L.Lexemes(ts)[i] == LexemeOf(ts[i])
  {
  }

  /** A sequence in five parts. */
  lemma SliceOf(ls: seq<L.Lexeme>, i: nat, j: nat, rest: seq<L.Lexeme>)
    requires 1 <= i && i + 2 <= j && |ls| == j + 2 && (ls[i + 2..j] == rest || (i + 2 == j && rest == []))
    ensures ls == [ls[0]] + ls[1..i] + [ls[i], ls[i + 1]] + rest + [ls[j]] + [ls[j + 1]]
  {
    assert ls[i..i + 2] == [ls[i], ls[i + 1]] && ls[..1] == [ls[0]] && ls[j..] == [ls[j]] + [ls[j + 1]];
    assert ls == ls[..1] + ls[1..i] + ls[i..i + 2] + ls[i + 2..j] + ls[j..];
  }

  /** The text is the statement, written in some style with some white space. */
  ghost predicate IsText(sql: string, s: Statement, st: Style) {
    && ValidStyle(st) && Writable(s)
    && L.Lex(sql).Ok? && L.Lexemes(L.Lex(sql).value) == Written(s, st) + [END]
  }

  /** A text is accepted as a statement exactly when its tokens are the statement written out. */
  lemma ParseSqlIff(sql: string, s: Statement)
    ensures ParseSql(sql) == Some(s) <==> exists st :: IsText(sql, s, st)
  {
    hide L.LexFrom, P.Spells, P.ParseStatement, Written, Writable, ValidStyle, Lexed;
    if ParseSql(sql) == Some(s) {
      var ts := L.Lex(sql).value;
      SqlLexed(sql);
      L.LexEndsOnce(sql, 0);
      P.ParseIff(ts, s);
      var st;
      if s.Insert? { st := InsertWritten(ts, s); } else { st := SelectWritten(ts, s); }
      assert IsText(sql, s, st);
    }
    if exists st :: IsText(sql, s, st) {
      var st :| IsText(sql, s, st);
      WrittenParses(sql, s, st);
    }
  }

  lemma WrittenParses(sql: string, s: Statement, st: Style)
    requires IsText(sql, s, st)
    ensures ParseSql(sql) == Some(s)
  {
    hide L.LexFrom, P.Spells, P.ParseStatement, Written, Writable, ValidStyle;
    var ts, ls := L.Lex(sql).value, Written(s, st) + [END];
    L.LexEndsOnce(sql, 0);
    assert SameLexemes(Unplaced(ls), ts) by {
      forall i | 0 <= i < |ts| ensures ts[i].kind == ls[i].kind && ts[i].text == ls[i].text {
        assert L.Lexemes(ts)[i] == ls[i];
      }
    }
    if s.Insert? { WrittenInsert(s, st); } else { WrittenSelect(s, st); }
    SameSpelling(Unplaced(ls), ts, s);
    P.ParseIff(ts, s);
  }
}
