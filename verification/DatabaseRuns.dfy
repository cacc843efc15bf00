/** What holds of a table over whole runs of statements: index and file agree, rows are only
    added, and what was inserted is read back. */
module DatabaseRuns {
  import opened Basics
  import opened SqlAst
  import opened TableFile
  import opened Database
  import Csv = CsvFormat

  // ----- one INSERT ---------------------------------------------------------------------

  /** C strings hold no NUL. */
  predicate NulFree(values: seq<string>) { forall v <- values :: '\0' !in v }

  predicate Clean(s: string) { forall i :: 0 <= i < |s| ==> s[i] != '\n' && s[i] != '\r' && s[i] != '\0' }

  lemma {:induction false} DoubledClean(v: string)
    requires Clean(v)
    ensures Clean(Csv.Doubled(v))
  {
    if v != "" { DoubledClean(v[1..]); }
  }

  lemma EscapeClean(v: string)
    requires Clean(v)
    ensures Clean(Csv.EscapeField(v)) && Csv.EscapeField(v) != ""
  {
    DoubledClean(v);
  }

  lemma {:induction false} EncodeClean(values: seq<string>)
    requires values != [] && forall v <- values :: Clean(v)
    ensures OneLine(Csv.EncodeRow(values))
  {
    hide Csv.EscapeField;
    EscapeClean(values[0]);
    if |values| > 1 { EncodeClean(values[1..]); }
  }

  function NewRow(schema: Schema, columns: seq<string>, values: seq<string>): string
    requires |columns| == |values|
  {
    Csv.EncodeRow(RowFor(schema, columns, values))
  }

  /** A validated INSERT writes one line. */
  lemma NewRowOneLine(schema: Schema, columns: seq<string>, values: seq<string>)
    requires ValidSchema(schema) && Insertable(schema, columns, values) && NulFree(values)
    ensures OneLine(NewRow(schema, columns, values)) && NulFree(RowFor(schema, columns, values))
  {
    var row := RowFor(schema, columns, values);
    forall c | 0 <= c < |row| ensures Clean(row[c]) && '\0' !in row[c] {
      CellClean(schema, columns, values, c);
    }
    EncodeClean(row);
  }

  lemma CellClean(schema: Schema, columns: seq<string>, values: seq<string>, c: nat)
    requires Insertable(schema, columns, values) && NulFree(values) && c < |schema.columns|
    ensures Clean(CellFor(schema, columns, values, c)) && '\0' !in CellFor(schema, columns, values, c)
  {
    var name := schema.columns[c];
    if name in columns {
      var v := values[IndexOf(columns, name)];
      assert v in values && !HasNewline(v);
      assert forall i :: 0 <= i < |v| ==> v[i] in v;
    }
  }

  /** Whether an INSERT gets as far as writing its row. */
  predicate Writes(t: Table, schema: Schema, columns: seq<string>, values: seq<string>) {
    ValidateInsert(schema, columns, values).None? && EnsureLoaded(t).1.None? && Distinct(columns)
  }

  /** What an INSERT leaves behind.  Only one thing can break the agreement of index and file: a
      registered row too long for the readers' buffer. */
  lemma InsertEffect(t: Table, schema: Schema, columns: seq<string>, values: seq<string>, fails: bool)
    requires ValidSchema(schema) && Agrees(t) && NulFree(values)
    ensures var (t', a) := ExecInsert(t, schema, columns, values, fails);
            && (a.Inserted? <==> Writes(t, schema, columns, values) && !fails)
            && (Writes(t, schema, columns, values) ==>
                  |columns| == |values| && t.file != "" && t'.file == Appended(t.file, NewRow(schema, columns, values)))
            && (!Writes(t, schema, columns, values) ==> t'.file == t.file)
            && (Agrees(t') <==> !(a.Inserted? && |NewRow(schema, columns, values)| > MAX_LINE))
  {
    hide RowsFrom, ReadEnd, ParseRows, Csv.EncodeRow, IndexOfRows, RowFor;
    ValidateInsertMeans(schema, columns, values);
    EnsureLoadedAgrees(t);
    if Writes(t, schema, columns, values) {
      var t1, row := EnsureLoaded(t).0, NewRow(schema, columns, values);
      LoadedFile(t);
      NewRowOneLine(schema, columns, values);
      RegisterAgrees(t1, row);
    }
  }

  /** A table whose index can be loaded has a header. */
  lemma LoadedFile(t: Table)
    requires Agrees(t) && EnsureLoaded(t).1.None?
    ensures t.file != "" && EnsureLoaded(t).0.index.loaded
  {
  }

  // ----- what was inserted is read back ---------------------------------------------------

  function Texts(rows: seq<Row>): seq<string> { seq(|rows|, i requires 0 <= i < |rows| => rows[i].text) }

  /** `t` and `t'` give the same answer about row k. */
  predicate SameRow(t: Table, t': Table, k: int) {
    && 1 <= k <= |DataRows(t.file)| && 1 <= k <= |DataRows(t'.file)|
    && DataRows(t'.file)[k - 1] == DataRows(t.file)[k - 1]
  }

  /** After a successful INSERT of a row that fits, the new row has the next free id, every older
      row is what and where it was, and the table still parses. */
  lemma InsertAddsRow(t: Table, schema: Schema, columns: seq<string>, values: seq<string>, fails: bool)
    requires ValidSchema(schema) && Agrees(t) && NulFree(values)
    requires Writes(t, schema, columns, values) && |columns| == |values| &&
             |NewRow(schema, columns, values)| <= MAX_LINE
    ensures var t' := ExecInsert(t, schema, columns, values, fails).0;
            var rows, rows' := DataRows(t.file), DataRows(t'.file);
            && rows' == rows + [Row(AppendOffset(t.file), NewRow(schema, columns, values))]
            && (Parses(t) ==> Parses(t'))
            && (forall k :: 1 <= k <= |rows| ==> SameRow(t, t', k))
  {
    hide RowsFrom, ReadEnd, ParseRows, Csv.EncodeRow, RowFor, ValidateInsert, EnsureLoaded, Register, Csv.ParseLine;
    InsertEffect(t, schema, columns, values, fails);
    ValidateInsertMeans(schema, columns, values);
    NewRowOneLine(schema, columns, values);
    var row := NewRow(schema, columns, values);
    AppendAddsRow(t.file, row);
    RowForWidth(schema, columns, values);
    Csv.RowRoundTrip(RowFor(schema, columns, values));
    ParseRowsSnoc(DataRows(t.file), Row(AppendOffset(t.file), row));
  }

  lemma {:induction false} ParseRowsSnoc(rows: seq<Row>, r: Row)
    requires Csv.ParseLine(r.text).Ok?
    ensures ParseRows(rows).Ok? ==> ParseRows(rows + [r]).Ok?
  {
    hide Csv.ParseLine;
    if rows == [] {
      assert rows + [r] == [r];
      assert [r][1..] == [];
    } else {
      assert (rows + [r])[1..] == rows[1..] + [r];
      ParseRowsSnoc(rows[1..], r);
    }
  }

  /** Reading back: `SELECT * ... WHERE id = n` for the new id returns the inserted values, each
      as CSV normalises it, and the empty string for columns that were not named. */
  lemma InsertReadBack(t: Table, schema: Schema, columns: seq<string>, values: seq<string>, plan: Plan, key: string)
    requires ValidSchema(schema) && Agrees(t) && Parses(t) && NulFree(values)
    requires Writes(t, schema, columns, values) && |columns| == |values| &&
             |NewRow(schema, columns, values)| <= MAX_LINE
    requires PlanFor(schema, Star) == Ok(plan) && ParseIntStrict(key) == Some(|DataRows(t.file)| + 1)
    ensures Fits(plan.picks, |schema.columns|)
    ensures var t' := ExecInsert(t, schema, columns, values, false).0;
            IndexSelect(t', |schema.columns|, plan, key).1 ==
            Selected(schema.columns, [Csv.NormalisedRow(RowFor(schema, columns, values))])
  {
    PlanFits(schema, Star);
    hide RowsFrom, ReadEnd, ParseRows, Csv.EncodeRow, RowFor, ValidateInsert, EnsureLoaded, Register, Csv.ParseLine,
        RowAnswer;
    var t' := ExecInsert(t, schema, columns, values, false).0;
    var row, n := NewRow(schema, columns, values), |DataRows(t.file)| + 1;
    InsertEffect(t, schema, columns, values, false);
    InsertAddsRow(t, schema, columns, values, false);
    EnsureLoadedAgrees(t');
    ValidateInsertMeans(schema, columns, values);
    NewRowOneLine(schema, columns, values);
    RowForWidth(schema, columns, values);
    Csv.RowRoundTrip(RowFor(schema, columns, values));
    RowAnswerIs(t'.file, n, |schema.columns|, plan);
    StarProjects(schema, plan, Csv.NormalisedRow(RowFor(schema, columns, values)), n);
  }

  lemma RowForWidth(schema: Schema, columns: seq<string>, values: seq<string>)
    requires |columns| == |values|
    ensures |RowFor(schema, columns, values)| == |schema.columns|
  {
  }

  lemma StarProjects(schema: Schema, plan: Plan, fields: seq<string>, id: int)
    requires PlanFor(schema, Star) == Ok(plan) && |fields| == |schema.columns|
    ensures Fits(plan.picks, |fields|) && Project(plan.picks, fields, id) == fields
  {
  }

  // ----- whole runs -----------------------------------------------------------------------

  /** What can happen to one table; a registration may fail, and the index may be invalidated or
      dropped with the whole registry at any time. */
  datatype Op =
    | DoInsert(columns: seq<string>, values: seq<string>, fails: bool)
    | DoSelect(selection: Columns, condition: Option<Condition>)
    | DropIndex

  function Apply(t: Table, schema: Schema, op: Op): Table {
    match op
    case DoInsert(columns, values, fails) => ExecInsert(t, schema, columns, values, fails).0
    case DoSelect(selection, condition) => ExecSelect(t, schema, selection, condition).0
    case DropIndex => Invalidate(t)
  }

  function Run(t: Table, schema: Schema, ops: seq<Op>): Table
    decreases |ops|
  {
    if ops == [] then t else Run(Apply(t, schema, ops[0]), schema, ops[1..])
  }

  /** The side condition of the readers: a row to be written fits their buffer. */
  predicate Short(schema: Schema, op: Op) {
    op.DoInsert? ==>
      NulFree(op.values) && (|op.columns| == |op.values| ==> |NewRow(schema, op.columns, op.values)| <= MAX_LINE)
  }

  /** The rows a run writes, in order. */
  function Written(t: Table, schema: Schema, ops: seq<Op>): seq<string>
    decreases |ops|
  {
    if ops == [] then [] else
    var op := ops[0];
    (if op.DoInsert? && Writes(t, schema, op.columns, op.values) && |op.columns| == |op.values|
     then [NewRow(schema, op.columns, op.values)] else [])
    + Written(Apply(t, schema, op), schema, ops[1..])
  }

  lemma SelectKeepsFile(t: Table, schema: Schema, selection: Columns, condition: Option<Condition>)
    requires Agrees(t)
    ensures var t' := ExecSelect(t, schema, selection, condition).0;
            t'.file == t.file && Agrees(t')
  {
    EnsureLoadedAgrees(t);
  }

  /** Over every run, index and file agree, rows are only ever added, in the order of the INSERTs
      and under consecutive ids, and rebuilding the index from scratch gives the same index. */
  lemma {:induction false} RunAgrees(t: Table, schema: Schema, ops: seq<Op>)
    requires ValidSchema(schema) && Agrees(t) && Parses(t) && forall op <- ops :: Short(schema, op)
    ensures var t' := Run(t, schema, ops);
            && Agrees(t') && Parses(t')
            && Texts(DataRows(t'.file)) == Texts(DataRows(t.file)) + Written(t, schema, ops)
            && EnsureLoaded(Invalidate(t')).0 == t'.(index := IndexOfRows(DataRows(t'.file)))
    decreases |ops|
  {
    hide RowsFrom, ReadEnd, ParseRows, Texts, Apply, Writes, NewRow, EnsureLoaded, IndexOfRows, Short, Written;
    if ops != [] {
      var t1 := Apply(t, schema, ops[0]);
      StepAgrees(t, schema, ops[0]);
      RunAgrees(t1, schema, ops[1..]);
      WrittenCons(t, schema, ops);
    } else {
      WrittenNothing(t, schema);
      EnsureLoadedAgrees(Invalidate(t));
    }
  }

  lemma WrittenNothing(t: Table, schema: Schema)
    ensures Written(t, schema, []) == []
  {
  }

  lemma WrittenCons(t: Table, schema: Schema, ops: seq<Op>)
    requires ops != []
    ensures Written(t, schema, ops) ==
            Written(t, schema, [ops[0]]) + Written(Apply(t, schema, ops[0]), schema, ops[1..])
  {
    hide Writes, NewRow, Apply;
    assert [ops[0]][1..] == [];
    WrittenNothing(Apply(t, schema, ops[0]), schema);
  }

  lemma StepAgrees(t: Table, schema: Schema, op: Op)
    requires ValidSchema(schema) && Agrees(t) && Parses(t) && Short(schema, op)
    ensures var t' := Apply(t, schema, op);
            && Agrees(t') && Parses(t')
            && Texts(DataRows(t'.file)) == Texts(DataRows(t.file)) + Written(t, schema, [op])
  {
    hide RowsFrom, ReadEnd, ParseRows, EnsureLoaded, ValidateInsert, Register, RowFor, Csv.EncodeRow, ScanSelect,
        IndexSelect;
    assert [op][1..] == [];
    match op
    case DoInsert(columns, values, fails) =>
      InsertEffect(t, schema, columns, values, fails);
      if Writes(t, schema, columns, values) {
        InsertAddsRow(t, schema, columns, values, fails);
      }
    case DoSelect(selection, condition) => SelectKeepsFile(t, schema, selection, condition);
    case DropIndex =>
  }
}
