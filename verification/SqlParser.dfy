/** The SQL parser (`sql/parser.c`): a state that advances over the token array, its functions as
    specifications on token positions, and the grammar it accepts. */
module SqlParser {
  import opened Basics
  import opened Text
  import opened SqlAst
  import L = SqlLexer

  type Tokens = seq<L.Token>

  predicate IsKeyword(t: L.Token, keyword: string) { t.kind.Identifier? && EqualIgnoringCase(t.text, keyword) }

  /** A keyword is an unquoted word whose letters, upper-cased, spell it. */
  lemma KeywordIs(t: L.Token, keyword: string)
    requires Capitals(keyword)
    ensures IsKeyword(t, keyword) <==> t.kind == L.Identifier && Spelled(t.text, keyword)
  {
    SpelledIffEqual(t.text, keyword);
  }

  /** Names are unquoted words; a value may also be quoted or a number. */
  lemma ItemIs(t: L.Token)
    ensures IsName(t) <==> t.kind == L.Identifier
    ensures IsValue(t) <==> t.kind in {L.StringLit, L.Number, L.Identifier}
  {
  }

  predicate IsName(t: L.Token) { t.kind.Identifier? }

  predicate IsValue(t: L.Token) { t.kind.StringLit? || t.kind.Number? || t.kind.Identifier? }

  /** What a list consists of: column names, or values. */
  datatype Item = Name | Value

  predicate IsItem(item: Item, t: L.Token) { if item.Name? then IsName(t) else IsValue(t) }

  // ----- the parser as functions on positions ---------------------------------------------------

  /** A comma-separated list from position `i` on: its texts and where it ends. */
  function ParseList(ts: Tokens, i: nat, item: Item): Option<(seq<string>, nat)>
    decreases |ts| - i
  {
    if i >= |ts| || !IsItem(item, ts[i]) then None
    else if i + 1 < |ts| && ts[i + 1].kind.Comma? then
      match ParseList(ts, i + 2, item)
      case None => None
      case Some((texts, end)) => Some(([ts[i].text] + texts, end))
    else Some(([ts[i].text], i + 1))
  }

  predicate KindAt(ts: Tokens, i: nat, kind: L.Kind) { i < |ts| && ts[i].kind == kind }

  predicate KeywordAt(ts: Tokens, i: nat, keyword: string) { i < |ts| && IsKeyword(ts[i], keyword) }

  predicate NameAt(ts: Tokens, i: nat) { i < |ts| && IsName(ts[i]) }

  function ParseInsertAt(ts: Tokens): Option<(Statement, nat)> {
    if !(KeywordAt(ts, 0, "INSERT") && KeywordAt(ts, 1, "INTO") && NameAt(ts, 2) && KindAt(ts, 3, L.LParen))
    then None else
    match ParseList(ts, 4, Name)
    case None => None
    case Some((columns, i)) =>
      if !(KindAt(ts, i, L.RParen) && KeywordAt(ts, i + 1, "VALUES") && KindAt(ts, i + 2, L.LParen)) then None else
      match ParseList(ts, i + 3, Value)
      case None => None
      case Some((values, j)) =>
        if !KindAt(ts, j, L.RParen) then None else Some((Insert(ts[2].text, columns, values), j + 1))
  }

  function ParseColumnsAt(ts: Tokens, i: nat): Option<(Columns, nat)> {
    if KindAt(ts, i, L.Star) then Some((Star, i + 1)) else
    match ParseList(ts, i, Name)
    case None => None
    case Some((names, end)) => Some((List(names), end))
  }

  function ParseConditionAt(ts: Tokens, i: nat): Option<(Option<Condition>, nat)> {
    if !KeywordAt(ts, i, "WHERE") then Some((None, i))
    else if !(NameAt(ts, i + 1) && KindAt(ts, i + 2, L.Equals) && i + 3 < |ts| && IsValue(ts[i + 3])) then None
    else if KeywordAt(ts, i + 4, "AND") || KeywordAt(ts, i + 4, "OR") then None
    else Some((Some(Condition(ts[i + 1].text, ts[i + 3].text)), i + 4))
  }

  function ParseSelectAt(ts: Tokens): Option<(Statement, nat)> {
    if !KeywordAt(ts, 0, "SELECT") then None else
    match ParseColumnsAt(ts, 1)
    case None => None
    case Some((columns, i)) =>
      if !(KeywordAt(ts, i, "FROM") && NameAt(ts, i + 1)) then None else
      match ParseConditionAt(ts, i + 2)
      case None => None
      case Some((condition, j)) => Some((Select(ts[i + 1].text, columns, condition), j))
  }

  /** A whole statement, closed by a semicolon and followed by nothing. */
  function ParseStatement(ts: Tokens): Option<Statement> {
    var r := if KeywordAt(ts, 0, "INSERT") then ParseInsertAt(ts) else ParseSelectAt(ts);
    match r
    case None => None
    case Some((statement, i)) => if KindAt(ts, i, L.Semicolon) && KindAt(ts, i + 1, L.End) then Some(statement)
        else None
  }

  // ----- the grammar ------------------------------------------------------------------------------

  /** list ::= item | item , list -- and no further comma follows. */
  predicate ListAt(ts: Tokens, i: nat, item: Item, texts: seq<string>)
    decreases |texts|
  {
    && texts != [] && i + 1 < |ts| && IsItem(item, ts[i]) && ts[i].text == texts[0]
    && if |texts| == 1 then !ts[i + 1].kind.Comma?
       else ts[i + 1].kind.Comma? && ListAt(ts, i + 2, item, texts[1..])
  }

  lemma {:induction false} ListEnd(ts: Tokens, i: nat, item: Item, texts: seq<string>)
    requires ListAt(ts, i, item, texts)
    ensures i + 2 * |texts| - 1 < |ts|
    decreases |texts|
  {
    if |texts| > 1 { ListEnd(ts, i + 2, item, texts[1..]); }
  }

  /** `ts` spells the statement. */
  predicate Spells(ts: Tokens, statement: Statement) {
    match statement
    case Insert(table, columns, values) =>
      var i, j := 4 + 2 * |columns| - 1, 4 + 2 * |columns| - 1 + 3 + 2 * |values| - 1;
      && columns != [] && values != [] && |ts| == j + 3
      && IsKeyword(ts[0], "INSERT") && IsKeyword(ts[1], "INTO") && IsName(ts[2]) && ts[2].text == table &&
           ts[3].kind.LParen?
      && ListAt(ts, 4, Name, columns)
      && ts[i].kind.RParen? && IsKeyword(ts[i + 1], "VALUES") && ts[i + 2].kind.LParen?
      && ListAt(ts, i + 3, Value, values)
      && ts[j].kind.RParen? && ts[j + 1].kind.Semicolon? && ts[j + 2].kind.End?
    case Select(table, columns, condition) =>
      var i := if columns.Star? then 2 else 1 + 2 * |columns.names| - 1;
      var j := i + 2 + if condition.Some? then 4 else 0;
      && (columns.List? ==> columns.names != []) && |ts| == j + 2
      && IsKeyword(ts[0], "SELECT")
      && (if columns.Star? then ts[1].kind.Star? else ListAt(ts, 1, Name, columns.names))
      && IsKeyword(ts[i], "FROM") && IsName(ts[i + 1]) && ts[i + 1].text == table
      && (condition.Some? ==>
            && IsKeyword(ts[i + 2], "WHERE") && IsName(ts[i + 3]) && ts[i + 3].text == condition.value.column
            && ts[i + 4].kind.Equals? && IsValue(ts[i + 5]) && ts[i + 5].text == condition.value.value)
      && ts[j].kind.Semicolon? && ts[j + 1].kind.End?
  }

  lemma EndsInSemicolon(ts: Tokens, statement: Statement)
    requires Spells(ts, statement)
    ensures |ts| >= 2 && ts[|ts| - 2].kind.Semicolon?
  {
    hide ListAt, IsKeyword, IsName, IsValue;
  }

  /** The list parser finds exactly the list that is there. */
  lemma {:induction false} ListIff(ts: Tokens, i: nat, item: Item, texts: seq<string>, end: nat)
    requires L.EndsOnce(ts)
    ensures ParseList(ts, i, item) == Some((texts, end)) <==> ListAt(ts, i, item, texts) && end == i + 2 * |texts| - 1
    decreases |ts| - i
  {
    if i < |ts| && IsItem(item, ts[i]) {
      assert i + 1 < |ts|;
      if ts[i + 1].kind.Comma? {
        if texts != [] {
          ListIff(ts, i + 2, item, texts[1..], end);
          assert texts == [texts[0]] + texts[1..];
        }
      } else if |texts| == 1 {
        assert texts == [texts[0]];
      }
    }
  }

  lemma KeywordsDiffer(t: L.Token)
    requires IsKeyword(t, "INSERT")
    ensures !IsKeyword(t, "SELECT")
  {
    assert "INSERT"[0] == 'I' && "SELECT"[0] == 'S';
    assert ToLower('I') != ToLower('S');
  }

  lemma InsertSound(ts: Tokens, s: Statement)
    requires L.EndsOnce(ts) && s.Insert? && ParseStatement(ts) == Some(s)
    ensures Spells(ts, s)
  {
    hide ParseList, ListAt, EqualIgnoringCase, ParseColumnsAt, ParseConditionAt;
    var (columns, i) := ParseList(ts, 4, Name).value;
    ListIff(ts, 4, Name, columns, i);
    ListSome(ts, 4, Name, columns);
    var (values, j) := ParseList(ts, i + 3, Value).value;
    ListIff(ts, i + 3, Value, values, j);
    ListSome(ts, i + 3, Value, values);
  }

  lemma InsertComplete(ts: Tokens, s: Statement)
    requires L.EndsOnce(ts) && s.Insert? && Spells(ts, s)
    ensures ParseStatement(ts) == Some(s)
  {
    hide ParseList, ListAt, EqualIgnoringCase, ParseColumnsAt, ParseConditionAt;
    var i := 4 + 2 * |s.columns| - 1;
    ListIff(ts, 4, Name, s.columns, i);
    ListIff(ts, i + 3, Value, s.values, i + 3 + 2 * |s.values| - 1);
  }

  lemma SelectSound(ts: Tokens, s: Statement)
    requires L.EndsOnce(ts) && s.Select? && ParseStatement(ts) == Some(s)
    ensures Spells(ts, s)
  {
    hide ParseList, ListAt, EqualIgnoringCase;
    if !KindAt(ts, 1, L.Star) {
      var (names, i) := ParseList(ts, 1, Name).value;
      ListIff(ts, 1, Name, names, i);
      ListSome(ts, 1, Name, names);
    }
  }

  lemma SelectComplete(ts: Tokens, s: Statement)
    requires L.EndsOnce(ts) && s.Select? && Spells(ts, s)
    ensures ParseStatement(ts) == Some(s)
  {
    if IsKeyword(ts[0], "INSERT") { KeywordsDiffer(ts[0]); }
    hide ParseList, ListAt, EqualIgnoringCase;
    if s.selection.List? {
      ListIff(ts, 1, Name, s.selection.names, 1 + 2 * |s.selection.names| - 1);
      ListFirst(ts, 1, Name, s.selection.names);
    }
  }

  lemma ListFirst(ts: Tokens, i: nat, item: Item, texts: seq<string>)
    requires ListAt(ts, i, item, texts)
    ensures i < |ts| && IsItem(item, ts[i])
  {
  }

  lemma ListSome(ts: Tokens, i: nat, item: Item, texts: seq<string>)
    requires ListAt(ts, i, item, texts)
    ensures texts != []
  {
  }

  /** The parser accepts exactly the sentences of the grammar and returns the statement they spell. */
  lemma ParseIff(ts: Tokens, s: Statement)
    requires L.EndsOnce(ts)
    ensures ParseStatement(ts) == Some(s) <==> Spells(ts, s)
  {
    hide ParseStatement, Spells;
    if ParseStatement(ts) == Some(s) {
      if s.Insert? { InsertSound(ts, s); } else { SelectSound(ts, s); }
    }
    if Spells(ts, s) {
      if s.Insert? { InsertComplete(ts, s); } else { SelectComplete(ts, s); }
    }
  }

  // ----- the parser's state machine ------------------------------------------------------------

  /** What is left to parse of a list after `texts`, which ended just before position `i`. */
  ghost function Continue(ts: Tokens, texts: seq<string>, i: nat, item: Item): Option<(seq<string>, nat)> {
    if !KindAt(ts, i, L.Comma) then Some((texts, i)) else
    match ParseList(ts, i + 1, item)
    case None => None
    case Some((more, end)) => Some((texts + more, end))
  }

  lemma ContinueStep(ts: Tokens, texts: seq<string>, i: nat, item: Item)
    requires KindAt(ts, i, L.Comma) && i + 1 < |ts|
    ensures Continue(ts, texts, i, item) ==
            if IsItem(item, ts[i + 1]) then Continue(ts, texts + [ts[i + 1].text], i + 2, item) else None
  {
    if IsItem(item, ts[i + 1]) && KindAt(ts, i + 2, L.Comma) {
      var rest := ParseList(ts, i + 3, item);
      if rest.Some? {
        assert texts + ([ts[i + 1].text] + rest.value.0) == texts + [ts[i + 1].text] + rest.value.0;
      }
    }
  }

  class ParserState {
    const tokens: Tokens
    var index: nat

    ghost predicate Valid()
      reads this
    {
      L.EndsOnce(tokens) && index < |tokens|
    }

    constructor (tokens: Tokens)
      requires L.EndsOnce(tokens)
      ensures Valid() && this.tokens == tokens && index == 0
    {
      this.tokens, index := tokens, 0;
    }

    method MatchType(kind: L.Kind) returns (ok: bool)
      requires Valid() && !kind.End?
      modifies this
      ensures Valid() && ok == KindAt(tokens, old(index), kind)
      ensures index == if ok then old(index) + 1 else old(index)
    {
      ok := tokens[index].kind == kind;
      if ok {
        index := index + 1;
      }
    }

    method ExpectKeyword(keyword: string) returns (ok: bool)
      requires Valid()
      modifies this
      ensures Valid() && ok == KeywordAt(tokens, old(index), keyword)
      ensures index == if ok then old(index) + 1 else old(index)
    {
      ok := IsKeyword(tokens[index], keyword);
      if ok {
        index := index + 1;
      }
    }

    method ParseItem(item: Item) returns (text: Option<string>)
      requires Valid()
      modifies this
      ensures Valid()
      ensures text == if IsItem(item, tokens[old(index)]) then Some(tokens[old(index)].text) else None
      ensures index == if text.Some? then old(index) + 1 else old(index)
    {
      if !IsItem(item, tokens[index]) {
        return None;
      }
      text := Some(tokens[index].text);
      index := index + 1;
    }

    /** One item, then as many as commas announce. */
    method ParseItems(item: Item) returns (r: Option<seq<string>>)
      requires Valid()
      modifies this
      ensures Valid() && (r.Some? <==> ParseList(tokens, old(index), item).Some?)
      ensures r.Some? ==> ParseList(tokens, old(index), item) == Some((r.value, index))
    {
      var text := ParseItem(item);
      if text.None? {
        return None;
      }
      var texts := [text.value];
      assert ParseList(tokens, old(index), item) == Continue(tokens, texts, index, item);
      hide ParseList;
      var more := MatchType(L.Comma);
      while more
        invariant Valid() && (more ==> index > 0)
        invariant ParseList(tokens, old(index), item) ==
                  Continue(tokens, texts, if more then index - 1 else index, item)
        invariant more == KindAt(tokens, if more then index - 1 else index, L.Comma)
        decreases |tokens| - index
      {
        ContinueStep(tokens, texts, index - 1, item);
        text := ParseItem(item);
        if text.None? {
          return None;
        }
        texts := texts + [text.value];
        more := MatchType(L.Comma);
      }
      r := Some(texts);
    }

    method ParseInsert() returns (r: Option<Statement>)
      requires Valid() && index == 0
      modifies this
      ensures Valid() && (r.Some? <==> ParseInsertAt(tokens).Some?)
      ensures r.Some? ==> ParseInsertAt(tokens) == Some((r.value, index))
    {
      hide ParseList, EqualIgnoringCase;
      var ok := ExpectKeyword("INSERT");
      if !ok { return None; }
      ok := ExpectKeyword("INTO");
      if !ok { return None; }
      var table := ParseItem(Name);
      if table.None? { return None; }
      ok := MatchType(L.LParen);
      if !ok { return None; }
      var columns := ParseItems(Name);
      if columns.None? { return None; }
      ok := MatchType(L.RParen);
      if !ok { return None; }
      ok := ExpectKeyword("VALUES");
      if !ok { return None; }
      ok := MatchType(L.LParen);
      if !ok { return None; }
      var values := ParseItems(Value);
      if values.None? { return None; }
      ok := MatchType(L.RParen);
      if !ok { return None; }
      r := Some(Insert(table.value, columns.value, values.value));
    }

    method ParseSelect() returns (r: Option<Statement>)
      requires Valid() && index == 0
      modifies this
      ensures Valid() && (r.Some? <==> ParseSelectAt(tokens).Some?)
      ensures r.Some? ==> ParseSelectAt(tokens) == Some((r.value, index))
    {
      hide ParseList, EqualIgnoringCase;
      var ok := ExpectKeyword("SELECT");
      if !ok { return None; }
      var selection := Star;
      var all := MatchType(L.Star);
      if !all {
        var names := ParseItems(Name);
        if names.None? { return None; }
        selection := List(names.value);
      }
      ok := ExpectKeyword("FROM");
      if !ok { return None; }
      var table := ParseItem(Name);
      if table.None? { return None; }
      var condition := None;
      var where := ExpectKeyword("WHERE");
      if where {
        var column := ParseItem(Name);
        if column.None? { return None; }
        ok := MatchType(L.Equals);
        if !ok { return None; }
        var value := ParseItem(Value);
        if value.None? { return None; }
        if IsKeyword(tokens[index], "AND") || IsKeyword(tokens[index], "OR") { return None; }
        condition := Some(Condition(column.value, value.value));
      }
      r := Some(Select(table.value, selection, condition));
    }

    /** Parses the whole array; every token it looks at is inside the array. */
    method Parse() returns (r: Option<Statement>)
      requires Valid() && index == 0
      modifies this
      ensures r == ParseStatement(tokens)
    {
      hide ParseInsertAt, ParseSelectAt, EqualIgnoringCase;
      if IsKeyword(tokens[index], "INSERT") {
        r := ParseInsert();
      } else if IsKeyword(tokens[index], "SELECT") {
        r := ParseSelect();
      } else {
        NotSelect(tokens);
        return None;
      }
      if r.None? { return; }
      var ok := MatchType(L.Semicolon);
      if !ok { return None; }
      if !tokens[index].kind.End? { return None; }
      index := index + 1;
    }

    lemma NotSelect(ts: Tokens)
      requires !KeywordAt(ts, 0, "SELECT")
      ensures ParseSelectAt(ts).None?
    {
    }
  }
}
