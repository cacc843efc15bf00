/** What rows longer than the readers' buffer do over whole runs of statements: exactly when index and file
    fall out of agreement, and what a client then sees. */
module LongRows {
  import opened Basics
  import opened Text
  import opened SqlAst
  import opened TableFile
  import opened Database
  import opened DatabaseRuns
  import Csv = CsvFormat

  // ----- index and file out of step -----------------------------------------------------------------

  predicate IdsBelow(ids: map<int, int>, next: int) {
    && (forall k <- ids :: 1 <= k < next)
    && (forall k :: 1 <= k < next ==> k in ids)
  }

  /** A loaded index that knows fewer rows than a reader finds in the file. */
  predicate Stale(t: Table) {
    && t.index.loaded && t.file != "" && IdsBelow(t.index.ids, t.index.nextId)
    && 1 <= t.index.nextId <= |DataRows(t.file)|
  }

  lemma StaleDisagrees(t: Table)
    requires Stale(t)
    ensures !Agrees(t)
  {
  }

  lemma IndexIds(rows: seq<Row>)
    ensures IdsBelow(IndexOfRows(rows).ids, IndexOfRows(rows).nextId)
  {
  }

  lemma RegisteredIds(ix: Index, offset: int)
    requires ix.nextId >= 1 && IdsBelow(ix.ids, ix.nextId)
    ensures ix.nextId !in ix.ids && IdsBelow(Registered(ix, ix.nextId, offset).ids, ix.nextId + 1)
  {
  }

  /** A long row gives the reader at least one row more than the index. */
  lemma AppendedCount(f: string, row: string)
    requires f != "" && OneLine(row)
    ensures |DataRows(Appended(f, row))| >= |DataRows(f)| + (if |row| <= MAX_LINE then 1 else 2)
  {
    hide DataRows, Appended;
    AppendAddsRow(f, row);
  }

  /** Registering a row puts a loaded index out of step, or leaves it so, unless both are in step and the row
      fits the buffer. */
  lemma RegisterStale(t: Table, row: string)
    requires t.index.loaded && t.file != "" && OneLine(row) && IdsBelow(t.index.ids, t.index.nextId)
    requires if |row| <= MAX_LINE then 1 <= t.index.nextId <= |DataRows(t.file)|
             else 1 <= t.index.nextId <= |DataRows(t.file)| + 1
    ensures var (t', ok) := Register(AppendTo(t, row), t.index.nextId, AppendOffset(t.file), false);
            ok && Stale(t')
  {
    hide DataRows, IdsBelow, OneLine;
    RegisteredIds(t.index, AppendOffset(t.file));
    AppendedCount(t.file, row);
    assert Appended(t.file, row) != "" by { AppendedNotEmpty(t.file, row); }
  }

  lemma AppendedNotEmpty(f: string, row: string)
    requires f != ""
    ensures Appended(f, row) != ""
  {
    assert Appended(f, row)[0] == f[0];
  }

  /** What an INSERT does to an index out of step: it stays so unless the index is dropped. */
  lemma StaleInsert(t: Table, schema: Schema, columns: seq<string>, values: seq<string>, fails: bool)
    requires Stale(t) && ValidSchema(schema) && NulFree(values)
    ensures var (t', a) := ExecInsert(t, schema, columns, values, fails);
            if a == Failed(RegistrationFailed) then t'.index == UNLOADED else Stale(t')
  {
    hide DataRows, IdsBelow, ValidateInsert, RowFor, Csv.EncodeRow, Register, Appended, Distinct;
    ValidateInsertMeans(schema, columns, values);
    ValidationError(schema, columns, values);
    if Writes(t, schema, columns, values) {
      NewRowOneLine(schema, columns, values);
      RegisterStale(t, NewRow(schema, columns, values));
      FailingRegister(AppendTo(t, NewRow(schema, columns, values)), t.index.nextId, AppendOffset(t.file));
    }
  }

  lemma ValidationError(schema: Schema, columns: seq<string>, values: seq<string>)
    ensures ValidateInsert(schema, columns, values) != Some(RegistrationFailed)
  {
    if |columns| == |values| { ColumnErrors(schema, columns, values, 0); }
  }

  lemma {:induction false} ColumnErrors(schema: Schema, columns: seq<string>, values: seq<string>, i: nat)
    requires |columns| == |values| && i <= |columns|
    ensures FirstColumnError(schema, columns, values, i) != Some(RegistrationFailed)
    decreases |columns| - i
  {
    if i < |columns| { ColumnErrors(schema, columns, values, i + 1); }
  }

  lemma FailingRegister(t: Table, id: int, offset: int)
    ensures Register(t, id, offset, true) == (t, false)
  {
  }

  /** A long row that gets registered puts the index out of step. */
  lemma LongInsert(t: Table, schema: Schema, columns: seq<string>, values: seq<string>, fails: bool)
    requires Agrees(t) && ValidSchema(schema) && NulFree(values) &&
             ExecInsert(t, schema, columns, values, fails).1.Inserted?
    requires |columns| == |values| && |NewRow(schema, columns, values)| > MAX_LINE
    ensures Stale(ExecInsert(t, schema, columns, values, fails).0)
    ensures ExecInsert(t, schema, columns, values, fails).0.index.nextId == |DataRows(t.file)| + 2
  {
    hide DataRows, IdsBelow, ValidateInsert, RowFor, Csv.EncodeRow, Appended, Distinct, EnsureLoaded, IndexOfRows;
    InsertEffect(t, schema, columns, values, fails);
    ValidateInsertMeans(schema, columns, values);
    NewRowOneLine(schema, columns, values);
    var t1 := EnsureLoaded(t).0;
    EnsureLoadedAgrees(t);
    LoadedFile(t);
    NextOfRows(DataRows(t.file));
    IndexIds(DataRows(t.file));
    LoadedKept(AppendTo(t1, NewRow(schema, columns, values)));
    RegisterStale(t1, NewRow(schema, columns, values));
  }

  lemma NextOfRows(rows: seq<Row>)
    ensures IndexOfRows(rows).nextId == |rows| + 1
  {
  }

  lemma LoadedKept(t: Table)
    requires t.index.loaded
    ensures EnsureLoaded(t) == (t, None)
  {
  }

  // ----- over whole runs -------------------------------------------------------------------------------

  /** Whether a row too long for the readers has been registered since the index was last dropped, by a
      statement or after a failed registration; `long` tells how it was before. */
  function LongSinceDrop(t: Table, schema: Schema, ops: seq<Op>, long: bool): bool
    decreases |ops|
  {
    if ops == [] then long else
    LongSinceDrop(Apply(t, schema, ops[0]), schema, ops[1..], LongAfter(t, schema, ops[0], long))
  }

  function LongAfter(t: Table, schema: Schema, op: Op, long: bool): bool {
    match op
    case DropIndex => false
    case DoSelect(_, _) => long
    case DoInsert(columns, values, fails) =>
      match ExecInsert(t, schema, columns, values, fails).1
      case Inserted => long || (|columns| == |values| && |NewRow(schema, columns, values)| > MAX_LINE)
      case Failed(error) => long && !error.RegistrationFailed?
      case Selected(_, _) => long
  }

  predicate CStrings(op: Op) { op.DoInsert? ==> NulFree(op.values) }

  lemma LongStep(t: Table, schema: Schema, op: Op, long: bool)
    requires ValidSchema(schema) && CStrings(op) && (if long then Stale(t) else Agrees(t))
    ensures var t' := Apply(t, schema, op);
            if LongAfter(t, schema, op, long) then Stale(t') else Agrees(t')
  {
    hide Stale, ExecInsert, NewRow, NulFree;
    match op
    case DropIndex =>
    case DoSelect(selection, condition) =>
      if long {
        StaleSelect(t, schema, selection, condition);
      } else {
        SelectKeepsFile(t, schema, selection, condition);
      }
    case DoInsert(columns, values, fails) =>
      InsertShape(t, schema, columns, values, fails);
      if long {
        StaleInsert(t, schema, columns, values, fails);
      } else {
        InsertEffect(t, schema, columns, values, fails);
        if LongAfter(t, schema, op, long) { LongInsert(t, schema, columns, values, fails); }
      }
  }

  lemma InsertShape(t: Table, schema: Schema, columns: seq<string>, values: seq<string>, fails: bool)
    ensures var a := ExecInsert(t, schema, columns, values, fails).1; a.Inserted? || a.Failed?
    ensures ExecInsert(t, schema, columns, values, fails).1.Inserted? ==> |columns| == |values|
  {
    hide Register, EnsureLoaded, ValidateInsert, Distinct, RowFor, Csv.EncodeRow;
  }

  lemma StaleSelect(t: Table, schema: Schema, selection: Columns, condition: Option<Condition>)
    requires Stale(t)
    ensures Stale(ExecSelect(t, schema, selection, condition).0)
  {
    hide DataRows, IdsBelow, PlanFor, ScanSelect, RowAnswer, ParseIntStrict;
  }

  lemma {:induction false} LongRun(t: Table, schema: Schema, ops: seq<Op>, long: bool)
    requires ValidSchema(schema) && (forall op <- ops :: CStrings(op)) && (if long then Stale(t) else Agrees(t))
    ensures if LongSinceDrop(t, schema, ops, long) then Stale(Run(t, schema, ops)) else Agrees(Run(t, schema, ops))
    decreases |ops|
  {
    hide Stale, Agrees, Apply, LongAfter, CStrings;
    if ops != [] {
      LongStep(t, schema, ops[0], long);
      LongRun(Apply(t, schema, ops[0]), schema, ops[1..], LongAfter(t, schema, ops[0], long));
    }
  }

  /** After any run of statements, index and file agree exactly if no row of more than 4095 bytes has been
      registered since the index was last dropped. */
  lemma RunAgreesIff(t: Table, schema: Schema, ops: seq<Op>)
    requires ValidSchema(schema) && Agrees(t) && forall op <- ops :: CStrings(op)
    ensures Agrees(Run(t, schema, ops)) <==> !LongSinceDrop(t, schema, ops, false)
  {
    hide Agrees, Stale, Run, LongSinceDrop, CStrings;
    LongRun(t, schema, ops, false);
    if Stale(Run(t, schema, ops)) { StaleDisagrees(Run(t, schema, ops)); }
  }

  // ----- what a client sees --------------------------------------------------------------------------------

  /** After a long INSERT the file has a row that the scan numbers and the index does not know. */
  lemma LongInsertHidesRow(t: Table, schema: Schema, columns: seq<string>, values: seq<string>, plan: Plan, key: string)
    requires Agrees(t) && ValidSchema(schema) && NulFree(values) &&
             ExecInsert(t, schema, columns, values, false).1.Inserted?
    requires |columns| == |values| && |NewRow(schema, columns, values)| > MAX_LINE
    requires Fits(plan.picks, |schema.columns|) && ParseIntStrict(key) == Some(|DataRows(t.file)| + 2)
    ensures var t' := ExecInsert(t, schema, columns, values, false).0;
            && |DataRows(t.file)| + 2 <= |DataRows(t'.file)|
            && IndexSelect(t', |schema.columns|, plan, key).1 == Selected(plan.headers, [])
  {
    hide DataRows, ExecInsert, NewRow, ParseIntStrict, RowAnswer;
    LongInsert(t, schema, columns, values, false);
  }

  function As(n: nat): (s: string)
    ensures |s| == n && forall i :: 0 <= i < n ==> s[i] == 'a'
  {
    seq(n, _ => 'a')
  }

  const ONE_COLUMN := Schema("t", ["v"])

  const EMPTY_TABLE := Table("v\n", UNLOADED)

  /** A line of letters is one field, written and read as it is. */
  lemma LettersAreOneField(n: nat)
    requires n > 0
    ensures Csv.EncodeRow([As(n)]) == As(n) && Csv.ParseLine(As(n)) == Ok([As(n)]) && OneLine(As(n))
  {
    hide Csv.ParseLine, TrimLeft, TrimRight;
    var s := As(n);
    assert !Csv.NeedsQuotes(s);
    Csv.RowRoundTrip([s]);
    NothingToTrim(s);
    assert Csv.NormalisedRow([s]) == [s];
  }

  lemma NothingToTrim(s: string)
    requires s != "" && !IsSpace(s[0]) && !IsSpace(s[|s| - 1])
    ensures Trim(s) == s
  {
  }

  lemma HeaderOnly()
    ensures LineEnd("v\n", 0) == 2 && DataRows("v\n") == []
  {
    hide ReadEnd;
    HeaderEnd(MAX_LINE);
  }

  lemma HeaderEnd(room: nat)
    requires room >= 2
    ensures ReadEnd("v\n", 0, room) == 2
  {
  }

  /** The readers' view of a line of letters that is one byte too long. */
  lemma LettersSplit()
    ensures DataRows(Appended("v\n", As(MAX_LINE + 1))) == [Row(2, As(MAX_LINE)), Row(2 + MAX_LINE, "a")]
  {
    hide ReadEnd, LineText;
    var g, row := "v\n", As(MAX_LINE + 1);
    HeaderOnly();
    LettersAreOneField(MAX_LINE + 1);
    AppendedRows(g, row);
    assert Appended(g, row) == g + row;
    NewLineText(g, row);
    assert row[..MAX_LINE] == As(MAX_LINE) && row[MAX_LINE..] == "a";
    var g' := g + row[..MAX_LINE];
    assert g' + "a" == g + row;
    NewRows(g', "a");
  }

  /** An INSERT of 4096 letters into an empty table: the scan prints two rows, and `WHERE id = 2` none. */
  lemma LongInsertDisagrees()
    ensures var (t, a) := ExecInsert(EMPTY_TABLE, ONE_COLUMN, ["v"], [As(MAX_LINE + 1)], false);
            && a == Inserted && Agrees(EMPTY_TABLE) && Parses(EMPTY_TABLE)
            && IndexSelect(t, 1, Plan(["v"], [Column(0)]), "2").1 == Selected(["v"], [])
            && ScanSelect(t, 1, Plan(["id", "v"], [RowId, Column(0)]), Everything) ==
               Selected(["id", "v"], [["1", As(MAX_LINE)], ["2", "a"]])
  {
    hide DataRows, Csv.EncodeRow, Register, EnsureLoaded, ParseIntStrict, ScanSelect, RowFor, NulFree;
    var values := [As(MAX_LINE + 1)];
    HeaderOnly();
    LettersAreOneField(MAX_LINE + 1);
    EmptyTableInserts(values[0]);
    InsertEffect(EMPTY_TABLE, ONE_COLUMN, ["v"], values, false);
    TwoParses();
    assert Plan(["v"], [Column(0)]).picks == [Column(0)];
    LongInsertHidesRow(EMPTY_TABLE, ONE_COLUMN, ["v"], values, Plan(["v"], [Column(0)]), "2");
    ScanOfSplit(ExecInsert(EMPTY_TABLE, ONE_COLUMN, ["v"], values, false).0);
  }

  lemma TwoParses()
    ensures FormatInt(1) == "1" && FormatInt(2) == "2" && ParseIntStrict("2") == Some(2)
  {
    IntRoundTrip(2);
  }

  lemma EmptyTableInserts(v: string)
    requires OneLine(v)
    ensures Agrees(EMPTY_TABLE) && Parses(EMPTY_TABLE) && NulFree([v]) && Writes(EMPTY_TABLE, ONE_COLUMN, ["v"], [v])
    ensures RowFor(ONE_COLUMN, ["v"], [v]) == [v]
  {
    hide DataRows;
    HeaderOnly();
    EnsureLoadedAgrees(EMPTY_TABLE);
    ValidateInsertMeans(ONE_COLUMN, ["v"], [v]);
    assert IndexOf(["v"], "v") == 0;
  }

  lemma ScanOfSplit(t: Table)
    requires t.file == Appended("v\n", As(MAX_LINE + 1))
    ensures ScanSelect(t, 1, Plan(["id", "v"], [RowId, Column(0)]), Everything) ==
            Selected(["id", "v"], [["1", As(MAX_LINE)], ["2", "a"]])
  {
    hide DataRows, Csv.ParseLine, FormatInt;
    LettersSplit();
    LettersAreOneField(MAX_LINE);
    LettersAreOneField(1);
    assert As(1) == "a";
    TwoParses();
    var rows, picks := DataRows(t.file), [RowId, Column(0)];
    assert rows[1..] == [Row(2 + MAX_LINE, "a")] && rows[1..][1..] == [];
    assert Project(picks, ["a"], 2) == ["2", "a"] && Project(picks, [As(MAX_LINE)], 1) == ["1", As(MAX_LINE)];
    assert Scan(rows[1..][1..], 3, 1, picks, Everything) == Ok([]);
    assert Csv.ParseLine(rows[1..][0].text) == Ok(["a"]) && [["2", "a"]] + [] == [["2", "a"]];
    assert Scan(rows[1..], 2, 1, picks, Everything) == Ok([["2", "a"]]);
    AppendedNotEmpty("v\n", As(MAX_LINE + 1));
  }
}
