/** What statements answer, said on column names, fields and row numbers alone. */
module Answers {
  import opened Basics
  import opened SqlAst
  import opened TableFile
  import opened Database
  import opened DatabaseRuns
  import Csv = CsvFormat

  // ----- SELECT ---------------------------------------------------------------------------------------

  /** A column list is `*`, or names that are `id` or columns of the table. */
  predicate Choosable(schema: Schema, selection: Columns) {
    selection.List? ==>
      selection.names != [] && forall name <- selection.names :: name == "id" || name in schema.columns
  }

  function Heading(schema: Schema, selection: Columns): seq<string> {
    if selection.Star? then schema.columns else selection.names
  }

  /** What stands under heading number `c` in the line for row number `k`. */
  function CellOf(schema: Schema, selection: Columns, fields: seq<string>, k: int, c: nat): string
    requires Choosable(schema, selection) && |fields| == |schema.columns| && c < |Heading(schema, selection)|
  {
    if selection.Star? then fields[c]
    else if selection.names[c] == "id" then FormatInt(k)
    else fields[IndexOf(schema.columns, selection.names[c])]
  }

  /** Every data row of the table has one field per column. */
  predicate WellFormed(t: Table, schema: Schema) {
    t.file != "" && forall i :: 0 <= i < |DataRows(t.file)| ==> WellShaped(DataRows(t.file)[i], |schema.columns|)
  }

  /** The fields of row number `k`. */
  function RowFields(t: Table, schema: Schema, k: int): (fields: seq<string>)
    requires WellFormed(t, schema) && 1 <= k <= |DataRows(t.file)|
    ensures |fields| == |schema.columns|
  {
    FieldsOf(DataRows(t.file)[k - 1], |schema.columns|)
  }

  predicate IsRow(t: Table, k: int) { 1 <= k <= |DataRows(t.file)| }

  /** The line printed for row number `k`. */
  predicate IsLine(t: Table, schema: Schema, selection: Columns, k: int, line: seq<string>)
    requires WellFormed(t, schema) && Choosable(schema, selection)
  {
    && IsRow(t, k) && |line| == |Heading(schema, selection)|
    && forall c :: 0 <= c < |line| ==> line[c] == CellOf(schema, selection, RowFields(t, schema, k), k, c)
  }

  /** The answer lists exactly these rows, in this order. */
  predicate Lists(t: Table, schema: Schema, selection: Columns, ks: seq<int>, a: Answer)
    requires WellFormed(t, schema) && Choosable(schema, selection)
  {
    && a.Selected? && a.headers == Heading(schema, selection) && |a.rows| == |ks|
    && forall i :: 0 <= i < |ks| ==> IsLine(t, schema, selection, ks[i], a.rows[i])
  }

  predicate Ascending(ks: seq<int>) { forall i, j :: 0 <= i < j < |ks| ==> ks[i] < ks[j] }

  /** The plan prints what the headings stand for. */
  lemma PlanPrints(schema: Schema, selection: Columns, fields: seq<string>, k: int)
    requires Choosable(schema, selection) && |fields| == |schema.columns|
    ensures PlanFor(schema, selection).Ok?
    ensures var plan := PlanFor(schema, selection).value;
            && plan.headers == Heading(schema, selection) && Fits(plan.picks, |fields|)
            && |Project(plan.picks, fields, k)| == |plan.headers|
            && forall c :: 0 <= c < |plan.headers| ==>
                 Project(plan.picks, fields, k)[c] == CellOf(schema, selection, fields, k, c)
  {
    hide FormatInt, PicksFor, IndexOf;
    if selection.List? { PlanMeans(schema, selection.names, fields, k); }
  }

  lemma PlanChosen(schema: Schema, selection: Columns)
    requires Choosable(schema, selection)
    ensures PlanFor(schema, selection).Ok? && PlanFor(schema, selection).value.headers == Heading(schema, selection)
    ensures Fits(PlanFor(schema, selection).value.picks, |schema.columns|)
  {
    hide PlanFor, Choosable;
    PlanPrints(schema, selection, seq(|schema.columns|, _ => ""), 0);
  }

  /** What a scan prints for row `k` is the line for that row. */
  lemma PrintedIsLine(t: Table, schema: Schema, selection: Columns, k: int, line: seq<string>)
    requires WellFormed(t, schema) && Choosable(schema, selection)
    requires PlanFor(schema, selection).Ok? && Fits(PlanFor(schema, selection).value.picks, |schema.columns|)
    requires Prints(DataRows(t.file), 1, |schema.columns|, PlanFor(schema, selection).value.picks, k, line)
    ensures IsLine(t, schema, selection, k, line)
  {
    hide DataRows, PlanFor, CellOf, Project, FieldsOf, Choosable, WellShaped;
    FieldsWidth(DataRows(t.file)[k - 1], |schema.columns|);
    PlanPrints(schema, selection, RowFields(t, schema, k), k);
  }

  /** A scan lists the rows its filter hits. */
  lemma ScanLists(t: Table, schema: Schema, selection: Columns, filter: Filter)
    requires WellFormed(t, schema) && Choosable(schema, selection)
    requires PlanFor(schema, selection).Ok? && Fits(PlanFor(schema, selection).value.picks, |schema.columns|)
    requires PlanFor(schema, selection).value.headers == Heading(schema, selection)
    ensures var width, plan := |schema.columns|, PlanFor(schema, selection).value;
            Lists(t, schema, selection, Hits(DataRows(t.file), 1, width, filter), ScanSelect(t, width, plan, filter))
  {
    hide DataRows, PlanFor, Scan, Hits, Choosable, WellShaped, IsLine, Prints;
    var rows, width, plan := DataRows(t.file), |schema.columns|, PlanFor(schema, selection).value;
    ScanMeans(rows, 1, width, plan.picks, filter);
    var out, hits := Scan(rows, 1, width, plan.picks, filter).value, Hits(rows, 1, width, filter);
    forall i | 0 <= i < |hits| ensures IsLine(t, schema, selection, hits[i], out[i]) {
      PrintedIsLine(t, schema, selection, hits[i], out[i]);
    }
  }

  /** SELECT without a condition lists all rows. */
  lemma SelectAll(t: Table, schema: Schema, selection: Columns) returns (ks: seq<int>)
    requires WellFormed(t, schema) && Choosable(schema, selection)
    ensures Ascending(ks) && forall k :: k in ks <==> IsRow(t, k)
    ensures var (t', a) := ExecSelect(t, schema, selection, None); t' == t && Lists(t, schema, selection, ks, a)
  {
    hide DataRows, PlanFor, Scan, Hits, Choosable, WellShaped, Lists, ScanSelect;
    var rows, width := DataRows(t.file), |schema.columns|;
    PlanChosen(schema, selection);
    ks := Hits(rows, 1, width, Everything);
    ScanLists(t, schema, selection, Everything);
    forall k ensures k in ks <==> IsRow(t, k) { HitsMean(rows, 1, width, Everything, k); }
    forall i, j | 0 <= i < j < |ks| ensures ks[i] < ks[j] { HitsAscend(rows, 1, width, Everything, i, j); }
  }

  /** `WHERE column = value` lists, in file order, exactly the rows whose field in the first column of that name is
      the value, and changes nothing. */
  lemma SelectWhere(t: Table, schema: Schema, selection: Columns, column: string, value: string, p: nat)
      returns (ks: seq<int>)
    requires WellFormed(t, schema) && Choosable(schema, selection) && column != "id"
    requires p < |schema.columns| && schema.columns[p] == column && column !in schema.columns[..p]
    ensures Ascending(ks) && forall k :: k in ks <==> IsRow(t, k) && RowFields(t, schema, k)[p] == value
    ensures var (t', a) := ExecSelect(t, schema, selection, Some(Condition(column, value)));
            t' == t && Lists(t, schema, selection, ks, a)
  {
    hide DataRows, PlanFor, Scan, Hits, Choosable, WellShaped, Lists, ScanSelect, FieldsOf;
    var rows, width, filter := DataRows(t.file), |schema.columns|, Equals(p, value);
    FirstPosition(schema.columns, column, p);
    PlanChosen(schema, selection);
    ks := Hits(rows, 1, width, filter);
    ScanLists(t, schema, selection, filter);
    forall k ensures k in ks <==> IsRow(t, k) && RowFields(t, schema, k)[p] == value {
      HitsMean(rows, 1, width, filter, k);
    }
    forall i, j | 0 <= i < j < |ks| ensures ks[i] < ks[j] { HitsAscend(rows, 1, width, filter, i, j); }
  }

  lemma FirstPosition(names: seq<string>, name: string, p: nat)
    requires p < |names| && names[p] == name && name !in names[..p]
    ensures name in names && IndexOf(names, name) == p
  {
    hide IndexOf;
    var i := IndexOf(names, name);
    assert name in names;
    assert forall a :: 0 <= a < p ==> names[..p][a] == names[a];
    assert forall a :: 0 <= a < i ==> names[..i][a] == names[a];
  }

  /** `WHERE id = value` lists row number `value`, if there is one. */
  lemma SelectById(t: Table, schema: Schema, selection: Columns, value: string, k: int)
    requires WellFormed(t, schema) && Agrees(t) && Choosable(schema, selection) && ParseIntStrict(value) == Some(k)
    ensures var (t', a) := ExecSelect(t, schema, selection, Some(Condition("id", value)));
            t'.file == t.file && Agrees(t') && Lists(t, schema, selection, if IsRow(t, k) then [k] else [], a)
  {
    hide DataRows, PlanFor, Choosable, WellShaped, IsLine, ParseIntStrict, ParseRows, RowAnswer;
    var rows, width := DataRows(t.file), |schema.columns|;
    PlanChosen(schema, selection);
    ShapedRowsParse(rows, width);
    EnsureLoadedAgrees(t);
    var plan := PlanFor(schema, selection).value;
    if IsRow(t, k) {
      RowAnswerIs(t.file, k, width, plan);
      RowLine(t, schema, selection, k);
    }
  }

  lemma RowLine(t: Table, schema: Schema, selection: Columns, k: int)
    requires WellFormed(t, schema) && Choosable(schema, selection) && IsRow(t, k)
    requires PlanFor(schema, selection).Ok? && Fits(PlanFor(schema, selection).value.picks, |schema.columns|)
    ensures WellShaped(DataRows(t.file)[k - 1], |schema.columns|)
    ensures var fields := FieldsOf(DataRows(t.file)[k - 1], |schema.columns|);
            && |fields| == |schema.columns|
            && IsLine(t, schema, selection, k, Project(PlanFor(schema, selection).value.picks, fields, k))
  {
    hide DataRows, PlanFor, CellOf, Project, Choosable;
    PlanPrints(schema, selection, RowFields(t, schema, k), k);
  }

  /** What is refused: an unknown name in the column list, first one first; an unknown column in the condition; an id
      that is no integer. */
  lemma SelectRefused(t: Table, schema: Schema, names: seq<string>, i: nat, condition: Option<Condition>)
    requires i < |names| && names[i] != "id" && names[i] !in schema.columns
    requires forall name <- names[..i] :: name == "id" || name in schema.columns
    ensures ExecSelect(t, schema, List(names), condition) == (t, Failed(UnknownColumn(names[i])))
  {
    hide PickFor;
    UnknownName(schema, names, i);
  }

  lemma {:induction false} UnknownName(schema: Schema, names: seq<string>, i: nat)
    requires i < |names| && names[i] != "id" && names[i] !in schema.columns
    requires forall name <- names[..i] :: name == "id" || name in schema.columns
    ensures PicksFor(schema, names) == Err(names[i])
    decreases i
  {
    if i > 0 {
      assert names[0] == names[..i][0];
      assert names[1..][..i - 1] == names[..i][1..];
      UnknownName(schema, names[1..], i - 1);
    }
  }

  lemma ConditionRefused(t: Table, schema: Schema, selection: Columns, column: string, value: string)
    requires Choosable(schema, selection)
    ensures column != "id" && column !in schema.columns ==>
              ExecSelect(t, schema, selection, Some(Condition(column, value))) == (t, Failed(UnknownColumn(column)))
    ensures column == "id" && ParseIntStrict(value) == None ==>
              ExecSelect(t, schema, selection, Some(Condition(column, value))) == (t, Failed(NotAnInteger))
  {
    hide PlanFor, ParseIntStrict, Choosable;
    PlanChosen(schema, selection);
  }

  /** Row number `i + 1` is the first that does not have one field per column. */
  predicate FirstBad(rows: seq<Row>, width: nat, i: nat) {
    i < |rows| && !WellShaped(rows[i], width) && forall j :: 0 <= j < i ==> WellShaped(rows[j], width)
  }

  function BadRowError(row: Row): ExecError {
    match Csv.ParseLine(row.text)
    case Err(e) => ScanFailed(e)
    case Ok(_) => RowShape
  }

  /** A scan stops at the first bad row, with that row's error, and at an empty file. */
  lemma ScanStops(t: Table, schema: Schema, selection: Columns, column: string, value: string, i: nat)
    requires Choosable(schema, selection) && column != "id" && column in schema.columns
    requires t.file == "" || FirstBad(DataRows(t.file), |schema.columns|, i)
    ensures var a := Failed(if t.file == "" then LoadFailed(EmptyFile) else BadRowError(DataRows(t.file)[i]));
            && ExecSelect(t, schema, selection, None) == (t, a)
            && ExecSelect(t, schema, selection, Some(Condition(column, value))) == (t, a)
  {
    hide DataRows, PlanFor, Scan, Choosable, WellShaped, BadRowError;
    PlanChosen(schema, selection);
    if t.file != "" {
      var width, picks := |schema.columns|, PlanFor(schema, selection).value.picks;
      BadScan(DataRows(t.file), 1, width, picks, Everything, i);
      BadScan(DataRows(t.file), 1, width, picks, Equals(IndexOf(schema.columns, column), value), i);
    }
  }

  lemma {:induction false} BadScan(rows: seq<Row>, id: int, width: nat, picks: seq<Pick>, filter: Filter, i: nat)
    requires Fits(picks, width) && FirstBad(rows, width, i)
    ensures Scan(rows, id, width, picks, filter) == Err(BadRowError(rows[i]))
    decreases i
  {
    hide Csv.ParseLine, Project, Matches;
    if i > 0 {
      assert WellShaped(rows[0], width);
      assert forall j :: 0 <= j < i ==> rows[1..][j] == rows[j + 1];
      BadScan(rows[1..], id + 1, width, picks, filter, i - 1);
    }
  }

  /** An index cannot be loaded from an empty file, nor past a row that does not parse. */
  lemma LoadStops(t: Table, i: nat)
    requires !t.index.loaded
    requires t.file != "" ==> i < |DataRows(t.file)| && Csv.ParseLine(DataRows(t.file)[i].text).Err?
                              && forall j :: 0 <= j < i ==> Csv.ParseLine(DataRows(t.file)[j].text).Ok?
    ensures EnsureLoaded(t) ==
            (t.(index := UNLOADED),
             Some(if t.file == "" then EmptyFile else BadRow(Csv.ParseLine(DataRows(t.file)[i].text).error)))
  {
    hide DataRows, Csv.ParseLine;
    if t.file != "" { BadParse(DataRows(t.file), i); }
  }

  lemma {:induction false} BadParse(rows: seq<Row>, i: nat)
    requires i < |rows| && Csv.ParseLine(rows[i].text).Err?
    requires forall j :: 0 <= j < i ==> Csv.ParseLine(rows[j].text).Ok?
    ensures ParseRows(rows) == Err(Csv.ParseLine(rows[i].text).error)
    decreases i
  {
    hide Csv.ParseLine;
    if i > 0 {
      assert forall j :: 0 <= j < i ==> rows[1..][j] == rows[j + 1];
      BadParse(rows[1..], i - 1);
    }
  }

  /** By id, a row with the wrong number of fields is an error, and so is a table whose index cannot be loaded. */
  lemma SelectByIdStops(t: Table, schema: Schema, selection: Columns, value: string, k: int)
    requires Agrees(t) && Choosable(schema, selection) && ParseIntStrict(value) == Some(k)
    ensures var a := ExecSelect(t, schema, selection, Some(Condition("id", value))).1;
            match EnsureLoaded(t).1
            case Some(error) => a == Failed(LoadFailed(error))
            case None =>
              IsRow(t, k) && ParsesButBad(DataRows(t.file)[k - 1], |schema.columns|) ==> a == Failed(RowShape)
  {
    hide DataRows, PlanFor, Choosable, ParseIntStrict, EnsureLoaded, Csv.ParseLine, LineText;
    PlanChosen(schema, selection);
    EnsureLoadedAgrees(t);
    if IsRow(t, k) { RowRead(t.file, k); }
  }

  predicate ParsesButBad(row: Row, width: nat) { Csv.ParseLine(row.text).Ok? && !WellShaped(row, width) }

  lemma RowRead(file: string, k: int)
    requires 1 <= k <= |DataRows(file)|
    ensures var row := DataRows(file)[k - 1];
            && OffsetOf(DataRows(file), k) == row.offset >= 0
            && (Csv.ParseLine(row.text).Ok? ==> ReadRowAt(file, row.offset) == Ok(Csv.ParseLine(row.text).value))
  {
    hide RowsFrom, LineText, LineEnd, Csv.ParseLine;
    RowAtOffset(file, LineEnd(file, 0), k - 1);
  }

  // ----- INSERT ---------------------------------------------------------------------------------------

  predicate Acceptable(schema: Schema, column: string, value: string) {
    column != "id" && column in schema.columns && '\n' !in value && '\r' !in value
  }

  /** The first unacceptable column decides the error, and nothing changes. */
  lemma InsertRefused(t: Table, schema: Schema, columns: seq<string>, values: seq<string>, fails: bool, i: nat)
    requires |columns| != |values| || i < |columns|
    requires |columns| == |values| ==> !Acceptable(schema, columns[i], values[i])
    requires |columns| == |values| ==> forall j :: 0 <= j < i ==> Acceptable(schema, columns[j], values[j])
    ensures var error := if |columns| != |values| then CountMismatch
                         else if columns[i] == "id" then ExplicitId
                         else if columns[i] !in schema.columns then UnknownColumn(columns[i])
                         else NewlineInValue;
            ExecInsert(t, schema, columns, values, fails) == (t, Failed(error))
  {
    hide EnsureLoaded, Register, RowFor;
    if |columns| == |values| { FirstError(schema, columns, values, 0, i); }
  }

  lemma {:induction false} FirstError(schema: Schema, columns: seq<string>, values: seq<string>, from: nat, i: nat)
    requires |columns| == |values| && from <= i < |columns|
    requires !Acceptable(schema, columns[i], values[i])
    requires forall j :: from <= j < i ==> Acceptable(schema, columns[j], values[j])
    ensures FirstColumnError(schema, columns, values, from) == ColumnError(schema, columns[i], values[i])
    ensures ColumnError(schema, columns[i], values[i]) ==
            Some(if columns[i] == "id" then ExplicitId
                 else if columns[i] !in schema.columns then UnknownColumn(columns[i]) else NewlineInValue)
    decreases i - from
  {
    if from < i { FirstError(schema, columns, values, from + 1, i); }
  }

  predicate AllAcceptable(schema: Schema, columns: seq<string>, values: seq<string>) {
    |columns| == |values| && forall j :: 0 <= j < |columns| ==> Acceptable(schema, columns[j], values[j])
  }

  lemma AcceptableIsInsertable(schema: Schema, columns: seq<string>, values: seq<string>)
    ensures AllAcceptable(schema, columns, values) <==> ValidateInsert(schema, columns, values).None?
  {
    ValidateInsertMeans(schema, columns, values);
  }

  /** With acceptable columns, an INSERT into a readable table succeeds unless a column is named twice or the
      registration fails. */
  lemma InsertAnswer(t: Table, schema: Schema, columns: seq<string>, values: seq<string>, fails: bool)
    requires ValidSchema(schema) && Agrees(t) && Parses(t) && NulFree(values) && AllAcceptable(schema, columns, values)
    ensures var (t', a) := ExecInsert(t, schema, columns, values, fails);
            && ((exists i, j :: 0 <= i < j < |columns| && columns[i] == columns[j]) ==>
                  a == Failed(DuplicateColumn) && t'.file == t.file)
            && ((forall i, j :: 0 <= i < j < |columns| ==> columns[i] != columns[j]) ==>
                  a == if fails then Failed(RegistrationFailed) else Inserted)
  {
    hide Csv.EncodeRow, RowFor, DataRows, ParseRows, IndexOfRows, Register, ValidateInsert, EnsureLoaded;
    AcceptableIsInsertable(schema, columns, values);
    EnsureLoadedAgrees(t);
    InsertEffect(t, schema, columns, values, fails);
    if fails && Writes(t, schema, columns, values) { FailsToRegister(t, schema, columns, values); }
  }

  /** A table whose index cannot be loaded takes no rows. */
  lemma InsertUnloadable(t: Table, schema: Schema, columns: seq<string>, values: seq<string>, fails: bool)
    requires AllAcceptable(schema, columns, values) && EnsureLoaded(t).1.Some?
    ensures var (t', a) := ExecInsert(t, schema, columns, values, fails);
            a == Failed(LoadFailed(EnsureLoaded(t).1.value)) && t'.file == t.file
  {
    hide RowFor, Register, Csv.EncodeRow, DataRows, ParseRows;
    AcceptableIsInsertable(schema, columns, values);
  }

  // ----- the whole data directory -----------------------------------------------------------------------

  /** A statement on a table that is not there is refused; any other touches its own table only. */
  lemma OwnTableOnly(catalog: Catalog, db: Db, stmt: Statement, fails: bool, name: string)
    ensures var (db', a) := ExecStatement(catalog, db, stmt, fails);
            && (stmt.table !in catalog || catalog[stmt.table].storageName !in db ==>
                  db' == db && a == Failed(NoSuchTable))
            && db'.Keys == db.Keys
            && (name in db && (stmt.table in catalog ==> catalog[stmt.table].storageName != name) ==>
                  db'[name] == db[name])
  {
    hide ExecInsert, ExecSelect;
  }

  lemma FailsToRegister(t: Table, schema: Schema, columns: seq<string>, values: seq<string>)
    requires Writes(t, schema, columns, values)
    ensures ExecInsert(t, schema, columns, values, true).1 in {Failed(RegistrationFailed), Failed(DuplicateColumn)}
    ensures |columns| == |values| ==> ExecInsert(t, schema, columns, values, true).1 == Failed(RegistrationFailed)
  {
    hide Csv.EncodeRow, RowFor, ValidateInsert, EnsureLoaded;
  }

  /** Value number `j` of the INSERT is for column number `c` of the table. */
  predicate Given(schema: Schema, columns: seq<string>, c: int, j: int) {
    && 0 <= c < |schema.columns| && 0 <= j < |columns|
    && columns[j] == schema.columns[c] && schema.columns[c] !in schema.columns[..c]
  }

  /** The row that was inserted, read back by its id: under each column, at its first position, the value given for
      it, as CSV normalises it, and nothing under the columns that were not named. */
  lemma InsertedRow(t: Table, schema: Schema, columns: seq<string>, values: seq<string>, key: string)
      returns (row: seq<string>)
    requires ValidSchema(schema) && Agrees(t) && Parses(t) && NulFree(values)
    requires ExecInsert(t, schema, columns, values, false).1 == Inserted
    requires |ExecInsert(t, schema, columns, values, false).0.file| - AppendOffset(t.file) <= 4095
    requires ParseIntStrict(key) == Some(|DataRows(t.file)| + 1)
    ensures var t' := ExecInsert(t, schema, columns, values, false).0;
            ExecSelect(t', schema, Star, Some(Condition("id", key))).1 == Selected(schema.columns, [row])
    ensures |row| == |schema.columns| && |columns| == |values|
    ensures forall c, j :: Given(schema, columns, c, j) ==> row[c] == Csv.Normalised(values[j])
    ensures forall c :: 0 <= c < |row| && schema.columns[c] !in columns ==> row[c] == ""
  {
    hide Csv.EncodeRow, RowFor, DataRows, ParseRows, Register, ValidateInsert, EnsureLoaded, ParseIntStrict, Distinct;
    hide IndexSelect;
    InsertEffect(t, schema, columns, values, false);
    ValidateInsertMeans(schema, columns, values);
    var written := NewRow(schema, columns, values);
    NewLength(t.file, written);
    var plan := PlanFor(schema, Star).value;
    InsertReadBack(t, schema, columns, values, plan, key);
    row := Csv.NormalisedRow(RowFor(schema, columns, values));
    RowForWidth(schema, columns, values);
    WrittenCells(schema, columns, values);
    forall c, j | Given(schema, columns, c, j) ensures row[c] == Csv.Normalised(values[j]) {
      assert RowFor(schema, columns, values)[c] == values[j];
    }
  }

  lemma NewLength(f: string, row: string)
    ensures |Appended(f, row)| == AppendOffset(f) + |row|
  {
  }

  lemma WrittenCells(schema: Schema, columns: seq<string>, values: seq<string>)
    requires |columns| == |values| && Distinct(columns)
    ensures var row := RowFor(schema, columns, values);
            && |row| == |schema.columns|
            && (forall c, j :: Given(schema, columns, c, j) ==> row[c] == values[j])
            && (forall c :: 0 <= c < |row| && schema.columns[c] !in columns ==> row[c] == "")
  {
    var row := RowFor(schema, columns, values);
    forall c, j | Given(schema, columns, c, j) ensures row[c] == values[j] {
      FirstPosition(schema.columns, schema.columns[c], c);
      var i := IndexOf(columns, columns[j]);
      assert columns[i] == columns[j];
    }
  }
}
