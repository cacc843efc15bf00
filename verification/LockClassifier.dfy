/** The lock classifier (`SERVER-CONCURRENCY/src/lock_manager.c`): a second, independent reader of the
    SQL text, which decides how a query is locked.  For every text the engine accepts it agrees with
    the parser. */
module LockClassifier {
  import opened Text
  import L = SqlLexer
  import P = SqlParser
  import Sql

  datatype Mode = NoLock | Read | Write

  predicate StartsWith(s: string, a: char, b: char) { |s| > 1 && s[0] == a && s[1] == b }

  /** The text from the next newline on. */
  function SkipLine(s: string): (r: string)
    ensures |r| <= |s|
  {
    if s != "" && s[0] != '\n' then SkipLine(s[1..]) else s
  }

  /** The text behind the end of a block comment, or nothing. */
  function SkipBlock(s: string): (r: string)
    ensures |r| <= |s|
  {
    if s == "" then ""
    else if StartsWith(s, '*', '/') then s[2..]
    else SkipBlock(s[1..])
  }

  /** The text behind leading white space and comments. */
  function SkipNoise(s: string): (r: string)
    ensures |r| <= |s|
    decreases |s|
  {
    var t := TrimLeft(s);
    if StartsWith(t, '-', '-') then SkipNoise(SkipLine(t[2..]))
    else if StartsWith(t, '/', '*') then SkipNoise(SkipBlock(t[2..]))
    else t
  }

  const KEYWORD_LIMIT: nat := 15

  /** The leading letters, in upper case, as far as they fit the buffer. */
  function Keyword(s: string, room: nat): string
    decreases room
  {
    if s == "" || room == 0 || !IsAlpha(s[0]) then "" else [ToUpper(s[0])] + Keyword(s[1..], room - 1)
  }

  function ModeFromSql(sql: string): Mode {
    if Keyword(SkipNoise(sql), KEYWORD_LIMIT) == "SELECT" then Read else Write
  }

  // ----- the classifier's loops --------------------------------------------------------------------

  lemma {:induction false} TrimLeftAgain(s: string)
    ensures TrimLeft(TrimLeft(s)) == TrimLeft(s)
  {
    if s != "" && IsSpace(s[0]) { TrimLeftAgain(s[1..]); }
  }

  method SkipBlanks(sql: string, start: nat) returns (at: nat)
    requires start <= |sql|
    ensures start <= at <= |sql| && sql[at..] == TrimLeft(sql[start..])
  {
    at := start;
    while at < |sql| && IsSpace(sql[at])
      invariant start <= at <= |sql| && TrimLeft(sql[at..]) == TrimLeft(sql[start..])
    {
      assert sql[at..][1..] == sql[at + 1..];
      at := at + 1;
    }
  }

  method SkipLineComment(sql: string, start: nat) returns (at: nat)
    requires start <= |sql|
    ensures start <= at <= |sql| && sql[at..] == SkipLine(sql[start..])
  {
    at := start;
    while at < |sql| && sql[at] != '\n'
      invariant start <= at <= |sql| && SkipLine(sql[at..]) == SkipLine(sql[start..])
    {
      assert sql[at..][1..] == sql[at + 1..];
      at := at + 1;
    }
  }

  method SkipBlockComment(sql: string, start: nat) returns (at: nat)
    requires start <= |sql|
    ensures start <= at <= |sql| && sql[at..] == SkipBlock(sql[start..])
  {
    at := start;
    while at < |sql| && !(sql[at] == '*' && at + 1 < |sql| && sql[at + 1] == '/')
      invariant start <= at <= |sql| && SkipBlock(sql[at..]) == SkipBlock(sql[start..])
    {
      assert sql[at..][1..] == sql[at + 1..];
      at := at + 1;
    }
    if at + 1 < |sql| && sql[at] == '*' && sql[at + 1] == '/' {
      assert sql[at..][2..] == sql[at + 2..];
      at := at + 2;
    }
  }

  lemma NoiseStep(s: string)
    ensures var t := TrimLeft(s);
            SkipNoise(s) == if StartsWith(t, '-', '-') then SkipNoise(SkipLine(t[2..]))
                            else if StartsWith(t, '/', '*') then SkipNoise(SkipBlock(t[2..]))
                            else t
  {
  }

  /** Skips blanks and comments until a round skips nothing; each other round consumes text. */
  method SkipLeadingNoise(sql: string) returns (at: nat)
    ensures at <= |sql| && sql[at..] == SkipNoise(sql)
  {
    hide SkipNoise, TrimLeft, SkipLine, SkipBlock;
    at := 0;
    var skipped := true;
    assert sql[0..] == sql;
    while skipped
      invariant 0 <= at <= |sql| && SkipNoise(sql[at..]) == SkipNoise(sql)
      invariant !skipped ==> sql[at..] == SkipNoise(sql)
      decreases |sql| - at, skipped
    {
      var start := at;
      NoiseStep(sql[start..]);
      TrimLeftAgain(sql[start..]);
      at := SkipBlanks(sql, start);
      skipped := at > start;
      ghost var t := sql[at..];
      NoiseStep(t);
      if at + 1 < |sql| && sql[at] == '-' && sql[at + 1] == '-' {
        assert sql[at + 2..] == t[2..];
        at := SkipLineComment(sql, at + 2);
        skipped := true;
        continue;
      }
      if at + 1 < |sql| && sql[at] == '/' && sql[at + 1] == '*' {
        assert sql[at + 2..] == t[2..];
        at := SkipBlockComment(sql, at + 2);
        skipped := true;
      }
    }
  }

  lemma KeywordStep(s: string, room: nat)
    ensures Keyword(s, room) == if s == "" || room == 0 || !IsAlpha(s[0]) then ""
            else [ToUpper(s[0])] + Keyword(s[1..], room - 1)
  {
  }

  /** The letters collected from `start` so far, with `rest` still to be read. */
  predicate Collected(start: string, keyword: string, rest: string) {
    |keyword| <= KEYWORD_LIMIT && Keyword(start, KEYWORD_LIMIT) == keyword + Keyword(rest, KEYWORD_LIMIT - |keyword|)
  }

  lemma CollectedStep(start: string, keyword: string, rest: string)
    requires Collected(start, keyword, rest) && |keyword| < KEYWORD_LIMIT && rest != "" && IsAlpha(rest[0])
    ensures Collected(start, keyword + [ToUpper(rest[0])], rest[1..])
  {
    hide Keyword;
    var room, c := KEYWORD_LIMIT - |keyword|, [ToUpper(rest[0])];
    KeywordStep(rest, room);
    assert keyword + (c + Keyword(rest[1..], room - 1)) == keyword + c + Keyword(rest[1..], room - 1);
  }

  lemma CollectedDone(start: string, keyword: string, rest: string)
    requires Collected(start, keyword, rest) && (rest == "" || !IsAlpha(rest[0]) || |keyword| == KEYWORD_LIMIT)
    ensures Keyword(start, KEYWORD_LIMIT) == keyword
  {
    hide Keyword;
    KeywordStep(rest, KEYWORD_LIMIT - |keyword|);
    assert keyword + "" == keyword;
  }

  method LockModeFromSql(sql: string) returns (mode: Mode)
    ensures mode == ModeFromSql(sql)
  {
    hide Keyword, SkipNoise;
    var at := SkipLeadingNoise(sql);
    ghost var start := sql[at..];
    if at == |sql| {
      KeywordStep(start, KEYWORD_LIMIT);
      return Write;
    }
    var keyword := "";
    assert Collected(start, keyword, sql[at..]);
    hide Collected;
    while at < |sql| && IsAlpha(sql[at]) && |keyword| < KEYWORD_LIMIT
      invariant 0 <= at <= |sql| && |keyword| <= KEYWORD_LIMIT
      invariant Collected(start, keyword, sql[at..])
      decreases |sql| - at
    {
      CollectedStep(start, keyword, sql[at..]);
      assert sql[at..][1..] == sql[at + 1..];
      keyword := keyword + [ToUpper(sql[at])];
      at := at + 1;
    }
    CollectedDone(start, keyword, sql[at..]);
    mode := if keyword == "SELECT" then Read else Write;
  }

  // ----- what is skipped and what decides -------------------------------------------------------------

  /** White space and comments in front of a text do not matter. */
  lemma BlankSkipped(blanks: string, sql: string)
    requires AllSpace(blanks)
    ensures SkipNoise(blanks + sql) == SkipNoise(sql) && ModeFromSql(blanks + sql) == ModeFromSql(sql)
  {
    hide Keyword, TrimLeft;
    TrimLeftFront(blanks, sql);
  }

  lemma {:induction false} TrimLeftFront(blanks: string, sql: string)
    requires AllSpace(blanks)
    ensures TrimLeft(blanks + sql) == TrimLeft(sql)
    decreases |blanks|
  {
    if blanks == "" {
      assert blanks + sql == sql;
    } else {
      assert (blanks + sql)[1..] == blanks[1..] + sql;
      TrimLeftFront(blanks[1..], sql);
    }
  }

  lemma LineCommentSkipped(text: string, sql: string)
    requires '\n' !in text
    ensures ModeFromSql("--" + (text + ("\n" + sql))) == ModeFromSql(sql)
  {
    hide Keyword, TrimLeft, SkipLine;
    var rest := text + ("\n" + sql);
    var all := "--" + rest;
    NoBlankFront(all);
    assert all[2..] == rest;
    LineSkipped(text, "\n" + sql);
    BlankSkipped("\n", sql);
  }

  lemma NoBlankFront(s: string)
    requires s != "" && !IsSpace(s[0])
    ensures TrimLeft(s) == s
  {
  }

  lemma {:induction false} LineSkipped(text: string, rest: string)
    requires '\n' !in text && rest != "" && rest[0] == '\n'
    ensures SkipLine(text + rest) == rest
    decreases |text|
  {
    if text == "" {
      assert text + rest == rest;
    } else {
      assert (text + rest)[1..] == text[1..] + rest;
      LineSkipped(text[1..], rest);
    }
  }

  /** The end of a block comment does not occur. */
  predicate NoEnd(text: string) { forall i :: 0 <= i < |text| - 1 && text[i] == '*' ==> text[i + 1] != '/' }

  lemma BlockCommentSkipped(text: string, sql: string)
    requires NoEnd(text)
    ensures ModeFromSql("/*" + (text + ("*/" + sql))) == ModeFromSql(sql)
  {
    hide Keyword, TrimLeft, SkipBlock;
    var rest := text + ("*/" + sql);
    var all := "/*" + rest;
    NoBlankFront(all);
    assert all[2..] == rest;
    BlockSkipped(text, sql);
  }

  lemma {:induction false} BlockSkipped(text: string, sql: string)
    requires NoEnd(text)
    ensures SkipBlock(text + ("*/" + sql)) == sql
    decreases |text|
  {
    var s := text + ("*/" + sql);
    if text == "" {
      assert s == "*/" + sql && s[2..] == sql;
    } else {
      assert s[0] == text[0] && s[1] == if |text| > 1 then text[1] else '*';
      assert s[1..] == text[1..] + ("*/" + sql);
      BlockSkipped(text[1..], sql);
    }
  }

  /** The first word decides: SELECT, in any case, is locked for reading, and everything else for writing. */
  lemma FirstWordDecides(word: string, rest: string)
    requires word != "" && (forall i :: 0 <= i < |word| ==> IsAlpha(word[i])) && (rest == "" || !IsAlpha(rest[0]))
    ensures ModeFromSql(word + rest) == if Spelled(word, "SELECT") then Read else Write
  {
    hide Keyword, TrimLeft, SkipLine, SkipBlock;
    var s := word + rest;
    NoBlankFront(s);
    assert SkipNoise(s) == s;
    KeywordOf(word, rest, KEYWORD_LIMIT);
    var k := Keyword(s, KEYWORD_LIMIT);
    assert k == "SELECT" ==> |word| == 6 && forall i :: 0 <= i < 6 ==> ToUpper(word[i]) == k[i];
  }

  lemma {:induction false} KeywordOf(word: string, rest: string, room: nat)
    requires (forall i :: 0 <= i < |word| ==> IsAlpha(word[i])) && (rest == "" || !IsAlpha(rest[0]))
    ensures var k := Keyword(word + rest, room);
            |k| == (if |word| <= room then |word| else room) && forall i :: 0 <= i < |k| ==> k[i] == ToUpper(word[i])
    decreases |word|
  {
    if word == "" {
      assert word + rest == rest;
    } else if room > 0 {
      assert (word + rest)[1..] == word[1..] + rest;
      KeywordOf(word[1..], rest, room - 1);
    }
  }

  /** A text that starts neither with a letter nor with white space or a comment is locked for writing. */
  lemma NoWordWrites(s: string)
    requires s == "" || (!IsAlpha(s[0]) && !IsSpace(s[0]))
    requires !StartsWith(s, '-', '-') && !StartsWith(s, '/', '*')
    ensures ModeFromSql(s) == Write
  {
    hide TrimLeft;
    EmptyTrimmed();
    if s != "" { NoBlankFront(s); }
  }

  lemma EmptyTrimmed()
    ensures TrimLeft("") == ""
  {
  }

  // ----- agreement with the parser -------------------------------------------------------------------

  /** If the first token is a word, the text behind the blanks starts with exactly this word. */
  lemma {:induction false} FirstWord(rest: string, pos: nat)
    requires L.LexFrom(rest, pos).Ok? && L.LexFrom(rest, pos).value != [] &&
             L.LexFrom(rest, pos).value[0].kind.Identifier?
    ensures var word := L.LexFrom(rest, pos).value[0].text;
            var s := TrimLeft(rest);
            && s != "" && L.IsWordChar(s[0]) && word == s[..L.WordLength(s)]
    decreases |rest|
  {
    L.LexStep(rest, pos);
    if IsSpace(rest[0]) {
      FirstWord(rest[1..], pos + 1);
    }
  }

  lemma {:induction false} KeywordOfWord(s: string, n: nat, room: nat)
    requires n <= room && n <= |s| && (n < |s| ==> !IsAlpha(s[n])) && forall i :: 0 <= i < n ==> IsAlpha(s[i])
    ensures |Keyword(s, room)| == n && forall i :: 0 <= i < n ==> Keyword(s, room)[i] == ToUpper(s[i])
    decreases n
  {
    if n > 0 { KeywordOfWord(s[1..], n - 1, room - 1); }
  }

  lemma LetterOfKeyword(c: char, k: char)
    requires ToLower(c) == ToLower(k) && IsUpper(k)
    ensures IsAlpha(c) && ToUpper(c) == k
  {
  }

  /** A text whose first word spells one of the parser's keywords is classified by that word. */
  lemma ClassifyWord(sql: string, word: string, keyword: string)
    requires var s := TrimLeft(sql); s != "" && L.IsWordChar(s[0]) && word == s[..L.WordLength(s)]
    requires EqualIgnoringCase(word, keyword) && |keyword| <= KEYWORD_LIMIT && forall i :: 0 <= i < |keyword| ==>
             IsUpper(keyword[i])
    ensures Keyword(SkipNoise(sql), KEYWORD_LIMIT) == keyword
  {
    hide Keyword, L.WordLength, TrimLeft;
    var s, n := TrimLeft(sql), |word|;
    assert SkipNoise(sql) == s;
    forall i | 0 <= i < n ensures IsAlpha(s[i]) && ToUpper(s[i]) == keyword[i] {
      assert word[i] == s[i];
      LetterOfKeyword(s[i], keyword[i]);
    }
    KeywordOfWord(s, n, KEYWORD_LIMIT);
  }

  /** For every text the lexer and the parser accept, a SELECT is locked for reading and an INSERT for
      writing. */
  lemma ClassifierAgrees(sql: string)
    requires Sql.ParseSql(sql).Some?
    ensures ModeFromSql(sql) == if Sql.ParseSql(sql).value.Select? then Read else Write
  {
    hide L.LexFrom, L.WordLength, Keyword, SkipNoise, TrimLeft, P.ListAt, P.ParseStatement;
    L.LexEndsOnce(sql, 0);
    var tokens := L.Lex(sql).value;
    var statement := Sql.ParseSql(sql).value;
    P.ParseIff(tokens, statement);
    FirstWord(sql, 0);
    var keyword := if statement.Select? then "SELECT" else "INSERT";
    ClassifyWord(sql, tokens[0].text, keyword);
  }

  /** Whatever the text, the query is locked: the server never runs the engine unlocked. */
  lemma NeverUnlocked(sql: string)
    ensures ModeFromSql(sql) != NoLock
  {
  }
}
