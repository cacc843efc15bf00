/** CSV lines however they came to be written: which texts are fields, what they mean, and which lines are refused
    (`csv_parse_line` in `storage/storage.c`). */
module CsvLines {
  import opened Basics
  import opened Text
  import opened CsvFormat

  /** A field as it stands in a line: plain text, or quoted text with blanks behind it. */
  datatype Spelling = Plain(text: string) | Quoted(value: string, blanks: string)

  predicate PlainByte(c: char) { c != ',' && c != '\n' && c != '\r' && c != '\0' }

  predicate Blanks(s: string) { forall i :: 0 <= i < |s| ==> s[i] == ' ' || s[i] == '\t' }

  predicate Valid(sp: Spelling) {
    match sp
    case Plain(text) => (forall i :: 0 <= i < |text| ==> PlainByte(text[i])) && (text != "" ==> text[0] != '"')
    case Quoted(value, blanks) => '\0' !in value && Blanks(blanks)
  }

  /** The bytes of a field; quotes inside quotes are doubled. */
  function Bytes(sp: Spelling): string {
    match sp
    case Plain(text) => text
    case Quoted(value, blanks) => "\"" + (Doubled(value) + "\"" + blanks)
  }

  /** What the field means: plain text is trimmed, quoted text is kept, with the blanks behind it. */
  function Meaning(sp: Spelling): string {
    match sp
    case Plain(text) => Trim(text)
    case Quoted(value, blanks) => value + blanks
  }

  function Meanings(sps: seq<Spelling>): seq<string> { seq(|sps|, i requires 0 <= i < |sps| => Meaning(sps[i])) }

  /** Plain text is collected, quotes inside it included. */
  lemma {:induction false} PlainRun(text: string, tail: string, st: CsvState)
    requires !st.inQuotes && (forall i :: 0 <= i < |text| ==> PlainByte(text[i]))
    requires !st.justClosed && (st.buffer.Some? || (text != "" ==> text[0] != '"'))
    ensures ParseFrom(text + tail, st) == ParseFrom(tail, Collect(st, text))
    decreases |text|
  {
    if text == "" {
      assert text + tail == tail;
    } else {
      assert (text + tail)[1..] == text[1..] + tail;
      CollectCons(st, text);
      PlainRun(text[1..], tail, st.Append(text[0]));
    }
  }

  lemma {:induction false} BlankRun(blanks: string, tail: string, st: CsvState)
    requires !st.inQuotes && st.justClosed && Blanks(blanks)
    ensures ParseFrom(blanks + tail, st) == ParseFrom(tail, Collect(st, blanks))
    decreases |blanks|
  {
    if blanks == "" {
      assert blanks + tail == tail;
    } else {
      assert (blanks + tail)[1..] == blanks[1..] + tail;
      CollectCons(st, blanks);
      BlankRun(blanks[1..], tail, st.Append(blanks[0]));
    }
  }

  function AfterQuoted(value: string, blanks: string, fields: seq<string>): CsvState {
    var closed := Collect(Start(fields).(inQuotes := true), value).(inQuotes := false, justClosed := true);
    Collect(closed, blanks)
  }

  /** The parser behind a quoted field and its blanks. */
  lemma QuotedRun(value: string, blanks: string, tail: string, fields: seq<string>)
    requires '\0' !in value && Blanks(blanks) && (blanks + tail == "" || (blanks + tail)[0] != '"')
    ensures ParseFrom("\"" + (Doubled(value) + "\"" + blanks) + tail, Start(fields)) ==
            ParseFrom(tail, AfterQuoted(value, blanks, fields))
  {
    hide ParseFrom, Doubled;
    var text := "\"" + (Doubled(value) + "\"" + blanks) + tail;
    var open := Start(fields).(inQuotes := true);
    assert text[0] == '"' && text[1..] == Doubled(value) + "\"" + (blanks + tail);
    OpenQuote(text, fields);
    ParseQuoted(value, blanks + tail, open);
    BlankRun(blanks, tail, Collect(open, value).(inQuotes := false, justClosed := true));
  }

  lemma QuotedField(value: string, blanks: string, fields: seq<string>)
    ensures var st := AfterQuoted(value, blanks, fields);
            !st.inQuotes && st.justClosed && st.fields == fields && st.Field() == value + blanks
            && (st.buffer == None <==> value + blanks == "")
  {
    assert "" + value == value && "" + blanks == blanks && value + "" == value;
    assert "" + (value + blanks) == value + blanks;
  }

  /** One field, whatever its spelling. */
  lemma FieldRead(sp: Spelling, tail: string, fields: seq<string>) returns (st: CsvState)
    requires Valid(sp) && (tail == "" || tail[0] == ',')
    ensures ParseFrom(Bytes(sp) + tail, Start(fields)) == ParseFrom(tail, st)
    ensures !st.inQuotes && st.fields == fields && st.Field() == Meaning(sp)
  {
    hide ParseFrom, Doubled, TrimLeft, TrimRight;
    match sp
    case Plain(text) =>
      PlainRun(text, tail, Start(fields));
      st := Collect(Start(fields), text);
      assert "" + text == text;
      NothingTrimmed();
    case Quoted(value, blanks) =>
      assert blanks + tail != "" ==> (blanks + tail)[0] == if blanks != "" then blanks[0] else tail[0];
      QuotedRun(value, blanks, tail, fields);
      QuotedField(value, blanks, fields);
      st := AfterQuoted(value, blanks, fields);
  }

  lemma NothingTrimmed()
    ensures Trim("") == ""
  {
  }

  /** Fields, each followed by a comma. */
  function Prefix(sps: seq<Spelling>): string {
    if sps == [] then "" else Bytes(sps[0]) + ("," + Prefix(sps[1..]))
  }

  lemma {:induction false} PrefixRead(sps: seq<Spelling>, rest: string, fields: seq<string>)
    requires forall sp <- sps :: Valid(sp)
    ensures ParseFrom(Prefix(sps) + rest, Start(fields)) == ParseFrom(rest, Start(fields + Meanings(sps)))
    decreases |sps|
  {
    hide ParseFrom, Bytes, Meaning, Valid;
    if sps == [] {
      assert Prefix(sps) + rest == rest && fields + Meanings(sps) == fields;
    } else {
      var tail := "," + Prefix(sps[1..]) + rest;
      var st := FieldRead(sps[0], tail, fields);
      assert Prefix(sps) + rest == Bytes(sps[0]) + tail;
      FieldEnd(tail, st);
      assert tail[1..] == Prefix(sps[1..]) + rest;
      PrefixRead(sps[1..], rest, fields + [Meaning(sps[0])]);
      assert fields + [Meaning(sps[0])] + Meanings(sps[1..]) == fields + Meanings(sps);
    }
  }

  /** Every line of well-spelled fields is read as their meanings. */
  lemma LineRead(sps: seq<Spelling>, last: Spelling)
    requires (forall sp <- sps :: Valid(sp)) && Valid(last)
    ensures ParseLine(Prefix(sps) + Bytes(last)) == Ok(Meanings(sps) + [Meaning(last)])
  {
    hide ParseFrom, Bytes, Meaning, Valid, Prefix;
    PrefixRead(sps, Bytes(last), []);
    var st := FieldRead(last, "", [] + Meanings(sps));
    assert Bytes(last) + "" == Bytes(last);
    FieldEnd("", st);
    assert [] + Meanings(sps) == Meanings(sps);
  }

  /** Anything but a blank or a comma behind a closing quote is refused. */
  lemma TextAfterQuoteRefused(sps: seq<Spelling>, value: string, blanks: string, c: char, rest: string)
    requires (forall sp <- sps :: Valid(sp)) && '\0' !in value && Blanks(blanks)
    requires c != ',' && c != ' ' && c != '\t' && c != '\0' && c != '"'
    ensures ParseLine(Prefix(sps) + ("\"" + (Doubled(value) + "\"" + blanks) + ([c] + rest))) == Err(TextAfterQuote)
  {
    hide ParseFrom, Prefix, Doubled, Valid, Meaning;
    var bad := "\"" + (Doubled(value) + "\"" + blanks) + ([c] + rest);
    PrefixRead(sps, bad, []);
    assert (blanks + ([c] + rest))[0] == if blanks != "" then blanks[0] else c;
    QuotedRun(value, blanks, [c] + rest, [] + Meanings(sps));
    QuotedField(value, blanks, [] + Meanings(sps));
    BadByte(c, rest, AfterQuoted(value, blanks, [] + Meanings(sps)));
  }

  lemma BadByte(c: char, rest: string, st: CsvState)
    requires !st.inQuotes && st.justClosed && c != ',' && c != ' ' && c != '\t' && c != '\0' && c != '"'
    ensures ParseFrom([c] + rest, st) == Err(TextAfterQuote)
  {
  }

  /** A quote that is not closed is refused. */
  lemma UnclosedQuoteRefused(sps: seq<Spelling>, value: string)
    requires (forall sp <- sps :: Valid(sp)) && '\0' !in value
    ensures ParseLine(Prefix(sps) + ("\"" + Doubled(value))) == Err(UnterminatedQuote)
  {
    hide ParseFrom, Prefix, Doubled, Valid, Meaning;
    var bad := "\"" + Doubled(value);
    PrefixRead(sps, bad, []);
    assert bad[1..] == Doubled(value);
    OpenQuote(bad, [] + Meanings(sps));
    UnclosedRun(value, Start([] + Meanings(sps)).(inQuotes := true));
  }

  lemma {:induction false} UnclosedRun(value: string, st: CsvState)
    requires st.inQuotes && '\0' !in value
    ensures ParseFrom(Doubled(value), st) == Err(UnterminatedQuote)
    decreases |value|
  {
    if value != "" {
      var text := Doubled(value);
      assert value[0] in value;
      UnclosedRun(value[1..], st.Append(value[0]));
      if value[0] == '"' {
        assert text[2..] == Doubled(value[1..]);
      } else {
        assert text[1..] == Doubled(value[1..]);
      }
    }
  }
}
