/** One CSV row: escaping fields, parsing a line (`storage/storage.c`), and the round trip
    between the two (section 2 of RFC 4180). */
module CsvFormat {
  import opened Basics
  import opened Text

  // ----- writing a row ------------------------------------------------------------

  predicate Special(c: char) { c == '"' || c == ',' || c == '\n' || c == '\r' }

  predicate NeedsQuotes(v: string) { exists i :: 0 <= i < |v| && Special(v[i]) }

  /** `v` with every quote doubled. */
  function Doubled(v: string): string {
    if v == "" then "" else (if v[0] == '"' then "\"\"" else [v[0]]) + Doubled(v[1..])
  }

  function EscapeField(v: string): string {
    if v == "" then "\"\"" else if NeedsQuotes(v) then "\"" + Doubled(v) + "\"" else v
  }

  /** The bytes of a row: the escaped fields joined by commas. */
  function EncodeRow(values: seq<string>): string {
    if values == [] then ""
    else if |values| == 1 then EscapeField(values[0])
    else EscapeField(values[0]) + "," + EncodeRow(values[1..])
  }

  lemma {:induction false} EncodeSnoc(values: seq<string>, v: string)
    ensures EncodeRow(values + [v]) == EncodeRow(values) + (if values == [] then "" else ",") + EscapeField(v)
  {
    if values != [] {
      assert (values + [v])[1..] == values[1..] + [v];
      EncodeSnoc(values[1..], v);
    }
  }

  function Quotes(v: string): nat {
    if v == "" then 0 else (if v[0] == '"' then 1 else 0) + Quotes(v[1..])
  }

  lemma {:induction false} DoubledSnoc(v: string, c: char)
    ensures Doubled(v + [c]) == Doubled(v) + if c == '"' then "\"\"" else [c]
    ensures Quotes(v + [c]) == Quotes(v) + if c == '"' then 1 else 0
  {
    if v == "" {
      assert v + [c] == [c];
      assert [c][1..] == "";
    } else {
      assert (v + [c])[1..] == v[1..] + [c];
      DoubledSnoc(v[1..], c);
    }
  }

  /** Fills a buffer of exactly the size counted beforehand. */
  method EscapeCsvField(value: string) returns (escaped: string)
    ensures escaped == EscapeField(value)
  {
    if |value| == 0 {
      return "\"\"";
    }
    var needsQuotes, extraQuotes := false, 0;
    for index := 0 to |value|
      invariant needsQuotes <==> NeedsQuotes(value[..index])
      invariant extraQuotes == Quotes(value[..index])
    {
      assert value[..index + 1] == value[..index] + [value[index]];
      DoubledSnoc(value[..index], value[index]);
      if Special(value[index]) {
        needsQuotes := true;
        assert Special(value[..index + 1][index]);
      }
      if value[index] == '"' {
        extraQuotes := extraQuotes + 1;
      }
    }
    assert value[..|value|] == value;
    if !needsQuotes {
      return value;
    }
    var buffer := FillQuoted(value, extraQuotes);
    escaped := buffer[..buffer.Length - 1];
  }

  lemma {:induction false} QuotesMonotone(v: string, i: nat)
    requires i <= |v|
    ensures Quotes(v[..i]) <= Quotes(v)
    ensures i < |v| && v[i] == '"' ==> Quotes(v[..i]) < Quotes(v)
    decreases |v| - i
  {
    if i < |v| {
      assert v[..i + 1] == v[..i] + [v[i]];
      DoubledSnoc(v[..i], v[i]);
      QuotesMonotone(v, i + 1);
    } else {
      assert v[..i] == v;
    }
  }

  /** Writes the quoted field and its terminating NUL; no write is out of bounds and none is
      left over. */
  method FillQuoted(value: string, extraQuotes: nat) returns (escaped: array<char>)
    requires extraQuotes == Quotes(value)
    ensures fresh(escaped) && escaped.Length == |value| + extraQuotes + 3
    ensures escaped[..] == "\"" + Doubled(value) + "\"" + ['\0']
  {
    escaped := new char[|value| + extraQuotes + 3](_ => '\0');
    var writeIndex := Put(escaped, 0, '"');
    FillStart(value);
    assert escaped[..1] == "\"";
    hide Filled, Doubled, Quotes;
    for index := 0 to |value|
      invariant writeIndex <= 1 + index + extraQuotes && Filled(value, index, escaped[..writeIndex])
    {
      FillStep(value, index, escaped[..writeIndex]);
      if value[index] == '"' {
        writeIndex := Put(escaped, writeIndex, '"');
      }
      writeIndex := Put(escaped, writeIndex, value[index]);
    }
    FillDone(value, escaped[..writeIndex]);
    writeIndex := Put(escaped, writeIndex, '"');
    writeIndex := Put(escaped, writeIndex, '\0');
    assert escaped[..] == escaped[..writeIndex];
  }

  /** What has been written for the first `n` bytes of the value. */
  predicate Filled(value: string, n: nat, written: string)
    requires n <= |value|
  {
    written == "\"" + Doubled(value[..n]) && |written| == 1 + n + Quotes(value[..n])
  }

  lemma FillStart(value: string)
    ensures Filled(value, 0, "\"")
  {
    assert value[..0] == "" && "\"" + "" == "\"";
  }

  lemma FillStep(value: string, n: nat, written: string)
    requires n < |value| && Filled(value, n, written)
    ensures Filled(value, n + 1, (if value[n] == '"' then written + ['"'] else written) + [value[n]])
    ensures |written| + (if value[n] == '"' then 1 else 0) <= 1 + n + Quotes(value)
  {
    hide Doubled, Quotes;
    assert value[..n + 1] == value[..n] + [value[n]];
    DoubledSnoc(value[..n], value[n]);
    QuotesMonotone(value, n);
    var d := Doubled(value[..n]);
    if value[n] == '"' {
      assert "\"" + (d + "\"\"") == "\"" + d + ['"'] + ['"'];
    } else {
      assert "\"" + (d + [value[n]]) == "\"" + d + [value[n]];
    }
  }

  lemma FillDone(value: string, written: string)
    requires Filled(value, |value|, written)
    ensures |written| == 1 + |value| + Quotes(value) && written == "\"" + Doubled(value)
  {
    hide Doubled, Quotes;
    assert value[..|value|] == value;
  }

  method Put(buffer: array<char>, at: nat, c: char) returns (next: nat)
    requires at < buffer.Length
    modifies buffer
    ensures next == at + 1 && buffer[..next] == old(buffer[..at]) + [c]
  {
    buffer[at] := c;
    next := at + 1;
  }

  // ----- parsing a line -------------------------------------------------------------

  datatype CsvError = UnterminatedQuote | TextAfterQuote

  /** The parser's flags, the field being collected (None while its buffer is NULL) and the
      fields already finished. */
  datatype CsvState = CsvState(inQuotes: bool, justClosed: bool, buffer: Option<string>, fields: seq<string>)
  {
    function Append(c: char): CsvState {
      this.(buffer := Some((if buffer.None? then "" else buffer.value) + [c]))
    }

    /** The finished field: quoted text as it is, other text trimmed. */
    function Field(): string {
      if buffer.None? then "" else if justClosed then buffer.value else Trim(buffer.value)
    }
  }

  function Start(fields: seq<string>): CsvState { CsvState(false, false, None, fields) }

  function ParseFrom(rest: string, st: CsvState): Result<seq<string>, CsvError>
    decreases |rest|
  {
    var current := if rest == "" then '\0' else rest[0];
    if st.inQuotes then
      if current == '"' then
        if |rest| > 1 && rest[1] == '"' then ParseFrom(rest[2..], st.Append('"'))
        else ParseFrom(rest[1..], st.(inQuotes := false, justClosed := true))
      else if current == '\0' then Err(UnterminatedQuote)
      else ParseFrom(rest[1..], st.Append(current))
    else if current == '\0' then Ok(st.fields + [st.Field()])
    else if current == ',' then ParseFrom(rest[1..], Start(st.fields + [st.Field()]))
    else if current == '"' && st.buffer.None? then ParseFrom(rest[1..], st.(inQuotes := true))
    else if st.justClosed && current != ' ' && current != '\t' then Err(TextAfterQuote)
    else if IsLineEnd(current) then ParseFrom(rest[1..], st)
    else ParseFrom(rest[1..], st.Append(current))
  }

  function ParseLine(line: string): Result<seq<string>, CsvError> { ParseFrom(line, Start([])) }

  method ParseCsvLine(line: string) returns (r: Result<seq<string>, CsvError>)
    ensures r == ParseLine(line)
  {
    var inQuotes, justClosed := false, false;
    var buffer: Option<string>, fields: seq<string> := None, [];
    var cursor := 0;
    while true
      invariant 0 <= cursor <= |line|
      invariant ParseFrom(line[cursor..], CsvState(inQuotes, justClosed, buffer, fields)) == ParseLine(line)
      decreases |line| - cursor
    {
      var current := if cursor < |line| then line[cursor] else '\0';
      if inQuotes {
        if current == '"' {
          if cursor + 1 < |line| && line[cursor + 1] == '"' {
            buffer := Some((if buffer.None? then "" else buffer.value) + ['"']);
            cursor := cursor + 1;
          } else {
            inQuotes, justClosed := false, true;
          }
        } else if current == '\0' {
          return Err(UnterminatedQuote);
        } else {
          buffer := Some((if buffer.None? then "" else buffer.value) + [current]);
        }
        cursor := cursor + 1;
        continue;
      }
      if current == '\0' || current == ',' {
        var text := if buffer.None? then "" else buffer.value;
        fields := fields + [if justClosed then text else Trim(text)];
        buffer, justClosed := None, false;
        if current == '\0' {
          return Ok(fields);
        }
        cursor := cursor + 1;
        continue;
      }
      if current == '"' && buffer == None {
        inQuotes := true;
        cursor := cursor + 1;
        continue;
      }
      if justClosed && current != ' ' && current != '\t' {
        return Err(TextAfterQuote);
      }
      if current != '\r' && current != '\n' {
        buffer := Some((if buffer.None? then "" else buffer.value) + [current]);
      }
      cursor := cursor + 1;
    }
  }

  // ----- the round trip --------------------------------------------------------------

  /** What reading a written field gives back. */
  function Normalised(v: string): string {
    if v == "" || NeedsQuotes(v) then v else Trim(v)
  }

  /** A value with a quote, a comma or a line break in it comes back as it was, any other without the white space
      around it. */
  lemma NormalisedMeans(v: string)
    ensures Normalised(v) == if '"' in v || ',' in v || '\n' in v || '\r' in v then v else Trim(v)
  {
    if NeedsQuotes(v) {
      var i :| 0 <= i < |v| && Special(v[i]);
      assert v[i] in v;
    } else {
      assert forall i :: 0 <= i < |v| ==> !Special(v[i]);
    }
  }

  function NormalisedRow(values: seq<string>): seq<string> {
    seq(|values|, i requires 0 <= i < |values| => Normalised(values[i]))
  }

  /** The state after collecting `v` on top of `st`. */
  function Collect(st: CsvState, v: string): CsvState {
    if v == "" then st else st.(buffer := Some((if st.buffer.None? then "" else st.buffer.value) + v))
  }

  lemma CollectCons(st: CsvState, v: string)
    requires v != ""
    ensures Collect(st.Append(v[0]), v[1..]) == Collect(st, v)
  {
    assert [v[0]] + v[1..] == v;
    assert v[1..] == "" ==> v == [v[0]];
    if st.buffer.Some? {
      assert st.buffer.value + [v[0]] + v[1..] == st.buffer.value + v;
    } else {
      assert "" + [v[0]] + v[1..] == "" + v;
    }
  }

  /** Inside quotes the parser undoes `Doubled` up to the closing quote. */
  lemma {:induction false} ParseQuoted(v: string, tail: string, st: CsvState)
    requires st.inQuotes && '\0' !in v && (tail == "" || tail[0] != '"')
    ensures ParseFrom(Doubled(v) + "\"" + tail, st) ==
            ParseFrom(tail, Collect(st, v).(inQuotes := false, justClosed := true))
    decreases |v|
  {
    var text := Doubled(v) + "\"" + tail;
    if v == "" {
      assert text == "\"" + tail && text[1..] == tail;
    } else {
      CollectCons(st, v);
      ParseQuoted(v[1..], tail, st.Append(v[0]));
      if v[0] == '"' {
        assert text[2..] == Doubled(v[1..]) + "\"" + tail;
      } else {
        assert text[1..] == Doubled(v[1..]) + "\"" + tail;
      }
    }
  }

  /** Outside quotes plain text is collected as it is. */
  lemma {:induction false} ParsePlain(v: string, tail: string, st: CsvState)
    requires !st.inQuotes && !st.justClosed && '\0' !in v && !NeedsQuotes(v)
    ensures ParseFrom(v + tail, st) == ParseFrom(tail, Collect(st, v))
    decreases |v|
  {
    if v == "" {
      assert v + tail == tail;
    } else {
      assert !Special(v[0]) && v[0] in v;
      assert (v + tail)[1..] == v[1..] + tail;
      forall i | 0 <= i < |v[1..]| ensures !Special(v[1..][i]) {
        assert v[1..][i] == v[i + 1];
      }
      CollectCons(st, v);
      ParsePlain(v[1..], tail, st.Append(v[0]));
    }
  }

  lemma OpenQuote(text: string, fields: seq<string>)
    requires text != "" && text[0] == '"'
    ensures ParseFrom(text, Start(fields)) == ParseFrom(text[1..], Start(fields).(inQuotes := true))
  {
  }

  lemma DoubledEmpty()
    ensures Doubled("") == ""
  {
  }

  /** One written field is read back as its normal form. */
  lemma ParseField(v: string, tail: string, fields: seq<string>) returns (st: CsvState)
    requires '\0' !in v && (tail == "" || tail[0] == ',')
    ensures ParseFrom(EscapeField(v) + tail, Start(fields)) == ParseFrom(tail, st)
    ensures !st.inQuotes && st.fields == fields && st.Field() == Normalised(v)
  {
    hide ParseFrom, Doubled, Trim;
    var text := EscapeField(v) + tail;
    if v == "" || NeedsQuotes(v) {
      var open := Start(fields).(inQuotes := true);
      DoubledEmpty();
      assert text[0] == '"' && text[1..] == Doubled(v) + "\"" + tail;
      OpenQuote(text, fields);
      ParseQuoted(v, tail, open);
      st := Collect(open, v).(inQuotes := false, justClosed := true);
      assert v != "" ==> "" + v == v;
    } else {
      ParsePlain(v, tail, Start(fields));
      st := Collect(Start(fields), v);
      assert "" + v == v;
    }
  }

  lemma FieldEnd(tail: string, st: CsvState)
    requires !st.inQuotes && (tail == "" || tail[0] == ',')
    ensures ParseFrom(tail, st) == if tail == "" then Ok(st.fields + [st.Field()])
                                   else ParseFrom(tail[1..], Start(st.fields + [st.Field()]))
  {
  }

  lemma {:induction false} ParseRow(values: seq<string>, fields: seq<string>)
    requires values != [] && forall v <- values :: '\0' !in v
    ensures ParseFrom(EncodeRow(values), Start(fields)) == Ok(fields + NormalisedRow(values))
    decreases |values|
  {
    hide ParseFrom, EscapeField, Normalised, CsvState.Field;
    var v := values[0];
    if |values| == 1 {
      var st := ParseField(v, "", fields);
      FieldEnd("", st);
      assert EscapeField(v) + "" == EscapeField(v);
      assert NormalisedRow(values) == [Normalised(v)];
    } else {
      var tail := "," + EncodeRow(values[1..]);
      var st := ParseField(v, tail, fields);
      FieldEnd(tail, st);
      assert EncodeRow(values) == EscapeField(v) + tail;
      assert tail[1..] == EncodeRow(values[1..]);
      ParseRow(values[1..], fields + [Normalised(v)]);
      assert fields + [Normalised(v)] + NormalisedRow(values[1..]) == fields + NormalisedRow(values);
    }
  }

  /** Writing a row and parsing it gives every value back: exactly if it had to be quoted,
      trimmed otherwise. */
  lemma RowRoundTrip(values: seq<string>)
    requires values != [] && forall v <- values :: '\0' !in v
    ensures ParseLine(EncodeRow(values)) == Ok(NormalisedRow(values))
  {
    ParseRow(values, []);
    assert [] + NormalisedRow(values) == NormalisedRow(values);
  }
}
