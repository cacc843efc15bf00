/** What the executor and the id index do, as functions on the state of one table: the bytes of
    its file and the state of its index (`execution/executor.c`, `index/table_index.c`).  The
    classes in `TableIndex` and `Executor` are proved to do exactly this. */
module Database {
  import opened Basics
  import opened Text
  import opened TableFile
  import opened SqlAst
  import Csv = CsvFormat

  // ----- schemas ------------------------------------------------------------------------

  datatype Schema = Schema(storageName: string, columns: seq<string>)

  /** What `load_schema` guarantees. */
  predicate ValidSchema(schema: Schema) { schema.columns != [] && "id" !in schema.columns }

  /** The first position of `name`, or the length of the list. */
  function IndexOf(names: seq<string>, name: string): (i: nat)
    ensures i <= |names| && name !in names[..i]
    ensures i < |names| <==> name in names
    ensures i < |names| ==> names[i] == name
  {
    if names == [] || names[0] == name then 0 else
    var i := 1 + IndexOf(names[1..], name);
    assert names[..i] == [names[0]] + names[1..][..i - 1];
    i
  }

  // ----- the id index -------------------------------------------------------------------

  /** `ids` maps a row id to the byte offset of its row. */
  datatype Index = Index(loaded: bool, nextId: int, ids: map<int, int>)

  const UNLOADED := Index(false, 1, map[])

  function OffsetOf(rows: seq<Row>, id: int): int
    requires 1 <= id <= |rows|
  {
    rows[id - 1].offset
  }

  /** The index of a table with these rows: row i, counting from 1, under key i. */
  function IndexOfRows(rows: seq<Row>): Index {
    Index(true, |rows| + 1, map id: int | 1 <= id <= |rows| :: OffsetOf(rows, id))
  }

  datatype Table = Table(file: string, index: Index)

  datatype LoadError = EmptyFile | BadRow(error: Csv.CsvError)

  /** `ensure_loaded`: keeps a loaded index and otherwise rebuilds it from the file. */
  function EnsureLoaded(t: Table): (Table, Option<LoadError>) {
    if t.index.loaded then (t, None)
    else if t.file == "" then (t.(index := UNLOADED), Some(EmptyFile))
    else match ParseRows(DataRows(t.file))
         case Ok(_) => (t.(index := IndexOfRows(DataRows(t.file))), None)
         case Err(e) => (t.(index := UNLOADED), Some(BadRow(e)))
  }

  lemma LoadedOrError(t: Table)
    ensures EnsureLoaded(t).1.None? ==> EnsureLoaded(t).0.index.loaded
  {
  }

  /** `table_index_register_row` on a loaded index. */
  function Registered(ix: Index, id: int, offset: int): Index {
    Index(true, if id >= ix.nextId then id + 1 else ix.nextId, ix.ids[id := offset])
  }

  /** `table_index_register_row`: may fail on its own, for lack of memory or because the index
      cannot be loaded, and fails for a key that is already present. */
  function Register(t: Table, id: int, offset: int, fails: bool): (Table, bool) {
    if fails then (t, false) else
    var (t', error) := EnsureLoaded(t);
    if error.Some? || id in t'.index.ids then (t', false)
    else (t'.(index := Registered(t'.index, id, offset)), true)
  }

  function Invalidate(t: Table): Table { t.(index := UNLOADED) }

  // ----- agreement of index and file ------------------------------------------------------

  /** A loaded index maps exactly each i in 1..n to the offset of the i-th data row. */
  predicate Agrees(t: Table) {
    if t.index.loaded then t.file != "" && t.index == IndexOfRows(DataRows(t.file)) else t.index == UNLOADED
  }

  /** Every data row parses. */
  predicate Parses(t: Table) { t.file != "" && ParseRows(DataRows(t.file)).Ok? }

  lemma EnsureLoadedAgrees(t: Table)
    requires Agrees(t)
    ensures Agrees(EnsureLoaded(t).0) && EnsureLoaded(t).0.file == t.file
    ensures Parses(t) ==> EnsureLoaded(t) == (t.(index := IndexOfRows(DataRows(t.file))), None)
    ensures EnsureLoaded(t).1.None? ==> EnsureLoaded(t).0.index == IndexOfRows(DataRows(t.file))
  {
  }

  function AppendTo(t: Table, row: string): Table { t.(file := Appended(t.file, row)) }

  /** Registering the row just appended keeps index and file in agreement exactly when the row
      fits one read buffer. */
  lemma RegisterAgrees(t: Table, row: string)
    requires Agrees(t) && t.index.loaded && OneLine(row)
    ensures var (t', ok) := Register(AppendTo(t, row), t.index.nextId, AppendOffset(t.file), false);
            ok && t'.file == Appended(t.file, row) && (Agrees(t') <==> |row| <= MAX_LINE)
  {
    var before, after := DataRows(t.file), DataRows(Appended(t.file, row));
    var id, offset := t.index.nextId, AppendOffset(t.file);
    var t' := Register(AppendTo(t, row), id, offset, false).0;
    assert id !in t.index.ids;
    AppendAddsRow(t.file, row);
    if |row| <= MAX_LINE {
      RegisteredRows(before, Row(offset, row));
    }
  }

  lemma RegisteredRows(rows: seq<Row>, r: Row)
    ensures Registered(IndexOfRows(rows), |rows| + 1, r.offset) == IndexOfRows(rows + [r])
  {
    var ix, ix' := Registered(IndexOfRows(rows), |rows| + 1, r.offset), IndexOfRows(rows + [r]);
    assert ix.ids.Keys == ix'.ids.Keys;
    assert forall id :: 1 <= id <= |rows| ==> OffsetOf(rows + [r], id) == OffsetOf(rows, id);
  }

  // ----- INSERT ---------------------------------------------------------------------------

  datatype ExecError =
    | NoSuchTable
    | CountMismatch
    | ExplicitId
    | UnknownColumn(name: string)
    | NewlineInValue
    | DuplicateColumn
    | LoadFailed(load: LoadError)
    | RegistrationFailed
    | NothingSelected
    | NotAnInteger
    | ReadFailed(read: ReadError)
    | RowShape
    | ScanFailed(csv: Csv.CsvError)

  datatype Answer =
    | Failed(error: ExecError)
    | Inserted
    | Selected(headers: seq<string>, rows: seq<seq<string>>)

  predicate HasNewline(v: string) { '\n' in v || '\r' in v }

  function ColumnError(schema: Schema, column: string, value: string): Option<ExecError> {
    if column == "id" then Some(ExplicitId)
    else if column !in schema.columns then Some(UnknownColumn(column))
    else if HasNewline(value) then Some(NewlineInValue)
    else None
  }

  /** The first complaint about the columns from position `i` on. */
  function FirstColumnError(schema: Schema, columns: seq<string>, values: seq<string>, i: nat): Option<ExecError>
    requires |columns| == |values| && i <= |columns|
    decreases |columns| - i
  {
    if i == |columns| then None else
    var error := ColumnError(schema, columns[i], values[i]);
    if error.Some? then error else FirstColumnError(schema, columns, values, i + 1)
  }

  function ValidateInsert(schema: Schema, columns: seq<string>, values: seq<string>): Option<ExecError> {
    if |columns| != |values| then Some(CountMismatch) else FirstColumnError(schema, columns, values, 0)
  }

  /** The columns and values an INSERT is allowed to have. */
  predicate Insertable(schema: Schema, columns: seq<string>, values: seq<string>) {
    && |columns| == |values|
    && forall i :: 0 <= i < |columns| ==> columns[i] != "id" && columns[i] in schema.columns && !HasNewline(values[i])
  }

  lemma {:induction false} FirstColumnErrorMeans(schema: Schema, columns: seq<string>, values: seq<string>, i: nat)
    requires |columns| == |values| && i <= |columns|
    ensures FirstColumnError(schema, columns, values, i).None? <==>
            forall j :: i <= j < |columns| ==> ColumnError(schema, columns[j], values[j]).None?
    decreases |columns| - i
  {
    if i < |columns| { FirstColumnErrorMeans(schema, columns, values, i + 1); }
  }

  lemma ValidateInsertMeans(schema: Schema, columns: seq<string>, values: seq<string>)
    ensures ValidateInsert(schema, columns, values).None? <==> Insertable(schema, columns, values)
  {
    if |columns| == |values| { FirstColumnErrorMeans(schema, columns, values, 0); }
  }

  predicate Distinct(names: seq<string>) { forall i, j :: 0 <= i < j < |names| ==> names[i] != names[j] }

  /** What column `c` of a new row holds: the value given for it, or nothing. */
  function CellFor(schema: Schema, columns: seq<string>, values: seq<string>, c: nat): string
    requires c < |schema.columns| && |columns| == |values|
  {
    var name := schema.columns[c];
    if IndexOf(schema.columns, name) == c && name in columns then values[IndexOf(columns, name)] else ""
  }

  /** The complete row in schema order. */
  function RowFor(schema: Schema, columns: seq<string>, values: seq<string>): seq<string>
    requires |columns| == |values|
  {
    seq(|schema.columns|, c requires 0 <= c < |schema.columns| => CellFor(schema, columns, values, c))
  }

  /** `execute_insert` on a table whose schema has been loaded. */
  function ExecInsert(t: Table, schema: Schema, columns: seq<string>, values: seq<string>, fails: bool)
      : (Table, Answer)
  {
    var error := ValidateInsert(schema, columns, values);
    if error.Some? then (t, Failed(error.value)) else
    var (t1, load) := EnsureLoaded(t);
    if load.Some? then (t1, Failed(LoadFailed(load.value))) else
    if |columns| != |values| || !Distinct(columns) then (t1, Failed(DuplicateColumn)) else
    var t2 := AppendTo(t1, Csv.EncodeRow(RowFor(schema, columns, values)));
    var (t3, ok) := Register(t2, t1.index.nextId, AppendOffset(t1.file), fails);
    if ok then (t3, Inserted) else (Invalidate(t3), Failed(RegistrationFailed))
  }

  // ----- SELECT ---------------------------------------------------------------------------

  const INT_MIN: int := -0x8000_0000
  const INT_MAX: int := 0x7fff_ffff

  /** `parse_int_strict`: blanks, an optional sign and digits to the end, within `int`. */
  function ParseIntStrict(text: string): Option<int> {
    var t := TrimLeft(text);
    var digits := if t != "" && (t[0] == '-' || t[0] == '+') then t[1..] else t;
    if digits == "" || !AllDigits(digits) then None else
    var v: int := DigitsValue(digits);
    var n := if t[0] == '-' then -v else v;
    if INT_MIN <= n <= INT_MAX then Some(n) else None
  }

  /** `%d`. */
  function FormatInt(n: int): string { if n < 0 then "-" + Decimal(-n) else Decimal(n) }

  /** A printed id is read back as itself. */
  lemma IntRoundTrip(n: int)
    requires INT_MIN <= n <= INT_MAX
    ensures ParseIntStrict(FormatInt(n)) == Some(n)
  {
    hide Decimal, DigitsValue, TrimLeft;
    DecimalDigits(if n < 0 then -n else n);
    var s := FormatInt(n);
    TrimLeftNothing(s);
    if n < 0 {
      assert s[1..] == Decimal(-n);
    }
  }

  lemma TrimLeftNothing(s: string)
    requires s != "" && !IsSpace(s[0])
    ensures TrimLeft(s) == s
  {
  }

  /** The strict integer parser accepts blanks, an optional sign and digits, if the number is an `int` ... */
  lemma ParseIntAccepts(blanks: string, sign: string, digits: string)
    requires AllSpace(blanks) && sign in {"", "+", "-"} && digits != "" && AllDigits(digits)
    ensures var v: int := DigitsValue(digits);
            var n := if sign == "-" then -v else v;
            ParseIntStrict(blanks + (sign + digits)) == if -2147483648 <= n <= 2147483647 then Some(n) else None
  {
    hide TrimLeft, DigitsValue;
    var t := sign + digits;
    assert t[0] == if sign == "" then digits[0] else sign[0];
    TrimLeftSpace(blanks, t);
    assert sign != "" ==> t[1..] == digits;
    assert sign == "" ==> t == digits;
  }

  /** ... and nothing else. */
  lemma ParseIntOnly(text: string) returns (blanks: string, sign: string, digits: string)
    requires ParseIntStrict(text).Some?
    ensures text == blanks + (sign + digits) && AllSpace(blanks) && sign in {"", "+", "-"}
    ensures digits != "" && AllDigits(digits)
  {
    hide TrimLeft, DigitsValue;
    blanks := TrimLeftSplit(text);
    var t := TrimLeft(text);
    if t[0] == '-' || t[0] == '+' {
      sign, digits := [t[0]], t[1..];
    } else {
      sign, digits := "", t;
    }
    assert t == sign + digits;
  }

  lemma {:induction false} TrimLeftSplit(s: string) returns (a: string)
    ensures s == a + TrimLeft(s) && AllSpace(a)
    decreases |s|
  {
    if s != "" && IsSpace(s[0]) {
      var rest := TrimLeftSplit(s[1..]);
      a := [s[0]] + rest;
    } else {
      a := "";
    }
  }

  /** Numbers are printed without leading zeros. */
  lemma {:induction false} DecimalCanonical(n: nat)
    ensures Decimal(n) != "" && (Decimal(n)[0] == '0' ==> n == 0)
  {
    if n >= 10 {
      DecimalCanonical(n / 10);
      assert Decimal(n)[0] == Decimal(n / 10)[0];
    }
  }

  /** A selected column: the hidden row id, or a column of the schema. */
  datatype Pick = RowId | Column(index: nat)

  function PickFor(schema: Schema, name: string): Option<Pick> {
    if name == "id" then Some(RowId)
    else if name in schema.columns then Some(Column(IndexOf(schema.columns, name)))
    else None
  }

  /** The columns to print, or the first unknown name. */
  function PicksFor(schema: Schema, names: seq<string>): Result<seq<Pick>, string> {
    if names == [] then Ok([]) else
    match PickFor(schema, names[0])
    case None => Err(names[0])
    case Some(pick) =>
      match PicksFor(schema, names[1..])
      case Err(name) => Err(name)
      case Ok(picks) => Ok([pick] + picks)
  }

  function AllColumns(width: nat): (picks: seq<Pick>)
    ensures |picks| == width && forall i :: 0 <= i < width ==> picks[i] == Column(i)
  {
    seq(width, i requires 0 <= i < width => Column(i))
  }

  datatype Plan = Plan(headers: seq<string>, picks: seq<Pick>)

  /** `build_select_indexes`. */
  function PlanFor(schema: Schema, selection: Columns): Result<Plan, ExecError> {
    match selection
    case Star => Ok(Plan(schema.columns, AllColumns(|schema.columns|)))
    case List(names) =>
      match PicksFor(schema, names)
      case Err(name) => Err(UnknownColumn(name))
      case Ok(picks) => if names == [] then Err(NothingSelected) else Ok(Plan(names, picks))
  }

  predicate Fits(picks: seq<Pick>, width: nat) {
    forall i :: 0 <= i < |picks| && picks[i].Column? ==> picks[i].index < width
  }

  lemma {:induction false} PicksFit(schema: Schema, names: seq<string>)
    ensures PicksFor(schema, names).Ok? ==>
              |PicksFor(schema, names).value| == |names| && Fits(PicksFor(schema, names).value, |schema.columns|)
  {
    if names != [] { PicksFit(schema, names[1..]); }
  }

  lemma PlanFits(schema: Schema, selection: Columns)
    ensures var plan := PlanFor(schema, selection);
            plan.Ok? ==> Fits(plan.value.picks, |schema.columns|) && |plan.value.picks| == |plan.value.headers|
  {
    if selection.List? { PicksFit(schema, selection.names); }
  }

  function Cell(pick: Pick, fields: seq<string>, id: int): string
    requires pick.Column? ==> pick.index < |fields|
  {
    match pick
    case RowId => FormatInt(id)
    case Column(i) => fields[i]
  }

  function Project(picks: seq<Pick>, fields: seq<string>, id: int): seq<string>
    requires Fits(picks, |fields|)
  {
    seq(|picks|, i requires 0 <= i < |picks| => Cell(picks[i], fields, id))
  }

  /** What a selected name stands for: the row's number, or its field in the first column of that name. */
  function Named(schema: Schema, name: string, fields: seq<string>, id: int): string
    requires |fields| == |schema.columns| && (name == "id" || name in schema.columns)
  {
    if name == "id" then FormatInt(id) else fields[IndexOf(schema.columns, name)]
  }

  predicate Selectable(schema: Schema, names: seq<string>) {
    forall name <- names :: name == "id" || name in schema.columns
  }

  lemma {:induction false} PicksMean(schema: Schema, names: seq<string>, fields: seq<string>, id: int)
    requires |fields| == |schema.columns|
    ensures PicksFor(schema, names).Ok? <==> Selectable(schema, names)
    ensures PicksFor(schema, names).Ok? ==>
              var picks := PicksFor(schema, names).value;
              |picks| == |names| && Fits(picks, |fields|)
              && forall i :: 0 <= i < |names| ==> Cell(picks[i], fields, id) == Named(schema, names[i], fields, id)
  {
    hide FormatInt;
    if names != [] {
      PicksMean(schema, names[1..], fields, id);
      PicksFit(schema, names);
      assert forall name :: name in names <==> name == names[0] || name in names[1..];
    }
  }

  /** A column list is accepted exactly when it is not empty and every name is known; the printed row then
      holds, name by name, what the name stands for. */
  lemma PlanMeans(schema: Schema, names: seq<string>, fields: seq<string>, id: int)
    requires |fields| == |schema.columns|
    ensures PlanFor(schema, List(names)).Ok? <==> names != [] && Selectable(schema, names)
    ensures PlanFor(schema, List(names)).Ok? ==>
              var plan := PlanFor(schema, List(names)).value;
              && plan.headers == names && Fits(plan.picks, |fields|) && |Project(plan.picks, fields, id)| == |names|
              && forall i :: 0 <= i < |names| ==>
                   Project(plan.picks, fields, id)[i] == Named(schema, names[i], fields, id)
  {
    hide FormatInt, PicksFor, Cell, Named;
    PicksMean(schema, names, fields, id);
  }

  /** The first names that fill the array of selected columns: one entry per schema column, one write per
      known name.  `Overrun`: a write behind the end of the array. */
  datatype Filling = Overrun | Unknown(name: string) | Filled(cells: seq<Pick>)

  function FillFrom(schema: Schema, names: seq<string>, i: nat, cells: seq<Pick>): Filling
    requires i <= |names|
    decreases |names| - i
  {
    if i == |names| then Filled(cells) else
    match PickFor(schema, names[i])
    case None => Unknown(names[i])
    case Some(pick) => if i >= |cells| then Overrun else FillFrom(schema, names, i + 1, cells[i := pick])
  }

  function EmptyCells(schema: Schema): (cells: seq<Pick>)
    ensures |cells| == |schema.columns|
  {
    seq(|schema.columns|, _ => Column(0))
  }

  /** The column lists that stay inside the array: not longer than the schema, or with an unknown name before
      the array is full. */
  predicate InBounds(schema: Schema, selection: Columns) {
    selection.List? && |selection.names| > |schema.columns| ==>
      !Selectable(schema, selection.names[..|schema.columns| + 1])
  }

  lemma {:induction false} FillFromMeans(schema: Schema, names: seq<string>, i: nat, cells: seq<Pick>)
    requires i <= |names| && i <= |cells|
    ensures FillFrom(schema, names, i, cells) == Overrun <==>
            |names| > |cells| && forall j :: i <= j <= |cells| ==> PickFor(schema, names[j]).Some?
    ensures match FillFrom(schema, names, i, cells)
            case Overrun => true
            case Unknown(name) => PicksFor(schema, names[i..]) == Err(name)
            case Filled(cells') =>
              |cells'| == |cells| >= |names| && cells'[..i] == cells[..i] &&
                  PicksFor(schema, names[i..]) == Ok(cells'[i..|names|])
    decreases |names| - i
  {
    hide PickFor;
    if i < |names| {
      assert names[i..][1..] == names[i + 1..];
      var pick := PickFor(schema, names[i]);
      if pick.Some? && i < |cells| {
        FillFromMeans(schema, names, i + 1, cells[i := pick.value]);
        var r := FillFrom(schema, names, i, cells);
        if r.Filled? {
          assert r.cells[i] == r.cells[..i + 1][i] == pick.value;
          assert r.cells[..i] == r.cells[..i + 1][..i] == cells[..i];
          assert r.cells[i..|names|] == [pick.value] + r.cells[i + 1..|names|];
        }
      }
    } else {
      assert names[i..] == [] && cells[i..i] == [];
    }
  }

  /** Every write stays inside the array exactly for the lists in bounds, and then the array holds the plan. */
  lemma FillIff(schema: Schema, names: seq<string>)
    ensures FillFrom(schema, names, 0, EmptyCells(schema)) == Overrun <==> !InBounds(schema, List(names))
    ensures match FillFrom(schema, names, 0, EmptyCells(schema))
            case Overrun => true
            case Unknown(name) => PicksFor(schema, names) == Err(name)
            case Filled(cells) => |names| <= |cells| && PicksFor(schema, names) == Ok(cells[..|names|])
  {
    hide FillFrom, PicksFor;
    var n := |schema.columns|;
    FillFromMeans(schema, names, 0, EmptyCells(schema));
    assert names[0..] == names;
    if |names| > n { SelectablePrefix(schema, names, n + 1); }
  }

  lemma SelectablePrefix(schema: Schema, names: seq<string>, n: nat)
    requires n <= |names|
    ensures Selectable(schema, names[..n]) <==> forall j :: 0 <= j < n ==> PickFor(schema, names[j]).Some?
  {
    hide IndexOf;
    assert forall j :: 0 <= j < n ==> names[..n][j] == names[j];
    if forall j :: 0 <= j < n ==> PickFor(schema, names[j]).Some? {
      forall name <- names[..n] ensures name == "id" || name in schema.columns {
        var j :| 0 <= j < n && names[..n][j] == name;
        assert PickFor(schema, names[j]).Some?;
      }
    }
  }

  datatype Filter = Everything | Equals(index: nat, value: string)

  predicate Matches(filter: Filter, fields: seq<string>) {
    filter.Equals? ==> filter.index < |fields| && fields[filter.index] == filter.value
  }

  /** The full scan over the rows, numbering them from `id` on; the first bad row stops it. */
  function Scan(rows: seq<Row>, id: int, width: nat, picks: seq<Pick>, filter: Filter)
      : Result<seq<seq<string>>, ExecError>
    requires Fits(picks, width)
  {
    if rows == [] then Ok([]) else
    match Csv.ParseLine(rows[0].text)
    case Err(e) => Err(ScanFailed(e))
    case Ok(fields) =>
      if |fields| != width then Err(RowShape) else
      match Scan(rows[1..], id + 1, width, picks, filter)
      case Err(e) => Err(e)
      case Ok(rest) => Ok((if Matches(filter, fields) then [Project(picks, fields, id)] else []) + rest)
  }

  /** `execute_index_select`. */
  function IndexSelect(t: Table, width: nat, plan: Plan, value: string): (Table, Answer)
    requires Fits(plan.picks, width)
  {
    var key := ParseIntStrict(value);
    if key.None? then (t, Failed(NotAnInteger)) else
    var (t', load) := EnsureLoaded(t);
    if load.Some? then (t', Failed(LoadFailed(load.value)))
    else if key.value !in t'.index.ids then (t', Selected(plan.headers, []))
    else (t', RowAnswer(t'.file, t'.index.ids[key.value], width, plan, key.value))
  }

  /** The answer holding the one row at `offset`. */
  function RowAnswer(file: string, offset: int, width: nat, plan: Plan, id: int): Answer
    requires Fits(plan.picks, width)
  {
    match if offset < 0 then Err(NothingThere) else ReadRowAt(file, offset)
    case Err(e) => Failed(ReadFailed(e))
    case Ok(fields) =>
      if |fields| != width then Failed(RowShape) else Selected(plan.headers, [Project(plan.picks, fields, id)])
  }

  function ScanSelect(t: Table, width: nat, plan: Plan, filter: Filter): Answer
    requires Fits(plan.picks, width)
  {
    if t.file == "" then Failed(LoadFailed(EmptyFile)) else
    match Scan(DataRows(t.file), 1, width, plan.picks, filter)
    case Err(e) => Failed(e)
    case Ok(rows) => Selected(plan.headers, rows)
  }

  /** `execute_select` on a table whose schema has been loaded. */
  function ExecSelect(t: Table, schema: Schema, selection: Columns, condition: Option<Condition>): (Table, Answer) {
    var plan := PlanFor(schema, selection);
    if plan.Err? then (t, Failed(plan.error)) else
    PlanFits(schema, selection);
    match condition
    case None => (t, ScanSelect(t, |schema.columns|, plan.value, Everything))
    case Some(Condition(column, value)) =>
      if column == "id" then IndexSelect(t, |schema.columns|, plan.value, value)
      else if column !in schema.columns then (t, Failed(UnknownColumn(column)))
      else (t, ScanSelect(t, |schema.columns|, plan.value, Equals(IndexOf(schema.columns, column), value)))
  }

  // ----- statements on a whole data directory -------------------------------------------------

  type Catalog = map<string, Schema>

  /** The tables by storage name. */
  type Db = map<string, Table>

  /** The statements on which the executor stays inside its array of selected columns. */
  predicate SafeStatement(catalog: Catalog, stmt: Statement) {
    stmt.Select? && stmt.table in catalog ==> InBounds(catalog[stmt.table], stmt.selection)
  }

  /** `execute_statement`. */
  function ExecStatement(catalog: Catalog, db: Db, stmt: Statement, fails: bool): (Db, Answer) {
    if stmt.table !in catalog || catalog[stmt.table].storageName !in db then (db, Failed(NoSuchTable)) else
    var schema := catalog[stmt.table];
    var t := db[schema.storageName];
    var (t', answer) :=
      match stmt
      case Insert(_, columns, values) => ExecInsert(t, schema, columns, values, fails)
      case Select(_, selection, condition) => ExecSelect(t, schema, selection, condition);
    (db[schema.storageName := t'], answer)
  }

  // ----- the indexed query and the scan agree ----------------------------------------------

  /** Of rows printed with their id in front, those with this id, without it. */
  function WithId(rows: seq<seq<string>>, id: string): seq<seq<string>> {
    if rows == [] then [] else
    (if rows[0] != [] && rows[0][0] == id then [rows[0][1..]] else []) + WithId(rows[1..], id)
  }

  lemma FormatIntInjective(a: int, b: int)
    requires INT_MIN <= a <= INT_MAX && INT_MIN <= b <= INT_MAX && FormatInt(a) == FormatInt(b)
    ensures a == b
  {
    IntRoundTrip(a);
    IntRoundTrip(b);
  }

  lemma ProjectWithId(picks: seq<Pick>, fields: seq<string>, id: int)
    requires Fits(picks, |fields|)
    ensures Fits([RowId] + picks, |fields|)
    ensures Project([RowId] + picks, fields, id) == [FormatInt(id)] + Project(picks, fields, id)
  {
  }

  predicate WellShaped(row: Row, width: nat) {
    Csv.ParseLine(row.text).Ok? && |Csv.ParseLine(row.text).value| == width
  }

  function FieldsOf(row: Row, width: nat): seq<string>
    requires WellShaped(row, width)
  {
    Csv.ParseLine(row.text).value
  }

  /** The numbers of the rows that satisfy the filter, in file order. */
  function Hits(rows: seq<Row>, id: int, width: nat, filter: Filter): seq<int>
    requires forall i :: 0 <= i < |rows| ==> WellShaped(rows[i], width)
  {
    if rows == [] then [] else
    (if Matches(filter, FieldsOf(rows[0], width)) then [id] else []) + Hits(rows[1..], id + 1, width, filter)
  }

  predicate IsHit(rows: seq<Row>, id: int, width: nat, filter: Filter, k: int) {
    id <= k < id + |rows| && WellShaped(rows[k - id], width) && Matches(filter, FieldsOf(rows[k - id], width))
  }

  /** The hits are exactly the numbers of the matching rows ... */
  lemma {:induction false} HitsMean(rows: seq<Row>, id: int, width: nat, filter: Filter, k: int)
    requires forall i :: 0 <= i < |rows| ==> WellShaped(rows[i], width)
    ensures k in Hits(rows, id, width, filter) <==> IsHit(rows, id, width, filter, k)
    decreases |rows|
  {
    hide WellShaped, FieldsOf, Matches;
    if rows != [] {
      HitsMean(rows[1..], id + 1, width, filter, k);
      assert id < k < id + |rows| ==> rows[k - id] == rows[1..][k - (id + 1)];
      var more := Hits(rows[1..], id + 1, width, filter);
      assert k in [id] + more <==> k == id || k in more;
      assert k in [] + more <==> k in more;
    }
  }

  /** ... in ascending order. */
  lemma {:induction false} HitsAscend(rows: seq<Row>, id: int, width: nat, filter: Filter, i: nat, j: nat)
    requires forall k :: 0 <= k < |rows| ==> WellShaped(rows[k], width)
    requires i < j < |Hits(rows, id, width, filter)|
    ensures Hits(rows, id, width, filter)[i] < Hits(rows, id, width, filter)[j]
    decreases |rows|
  {
    hide WellShaped, FieldsOf, Matches;
    var hits, more := Hits(rows, id, width, filter), Hits(rows[1..], id + 1, width, filter);
    if hits == more {
      HitsAscend(rows[1..], id + 1, width, filter, i, j);
    } else if i > 0 {
      HitsAscend(rows[1..], id + 1, width, filter, i - 1, j - 1);
    } else {
      assert more[j - 1] in more;
      HitsMean(rows[1..], id + 1, width, filter, more[j - 1]);
    }
  }

  /** One row of a scan. */
  lemma ScanStep(rows: seq<Row>, id: int, width: nat, picks: seq<Pick>, filter: Filter)
    requires Fits(picks, width) && rows != []
    ensures var scan, rest := Scan(rows, id, width, picks, filter), Scan(rows[1..], id + 1, width, picks, filter);
            && (scan.Ok? <==> WellShaped(rows[0], width) && rest.Ok?)
            && (scan.Ok? ==>
                  var fields := FieldsOf(rows[0], width);
                  scan.value == (if Matches(filter, fields) then [Project(picks, fields, id)] else []) + rest.value)
  {
    hide Csv.ParseLine, Project, Matches;
  }

  lemma {:induction false} ScanOk(rows: seq<Row>, id: int, width: nat, picks: seq<Pick>, filter: Filter)
    requires Fits(picks, width)
    ensures Scan(rows, id, width, picks, filter).Ok? <==> forall i :: 0 <= i < |rows| ==> WellShaped(rows[i], width)
    decreases |rows|
  {
    hide WellShaped;
    if rows != [] {
      var rest := rows[1..];
      ScanStep(rows, id, width, picks, filter);
      ScanOk(rest, id + 1, width, picks, filter);
      assert forall i :: 1 <= i < |rows| ==> rows[i] == rest[i - 1];
      assert forall i :: 0 <= i < |rest| ==> rest[i] == rows[i + 1];
    }
  }

  /** The i-th line printed is the i-th hit. */
  predicate Prints(rows: seq<Row>, id: int, width: nat, picks: seq<Pick>, hit: int, line: seq<string>)
    requires Fits(picks, width)
  {
    && id <= hit < id + |rows| && WellShaped(rows[hit - id], width)
    && line == Project(picks, FieldsOf(rows[hit - id], width), hit)
  }

  lemma PrintsLater(rows: seq<Row>, id: int, width: nat, picks: seq<Pick>, hit: int, line: seq<string>)
    requires Fits(picks, width) && rows != [] && Prints(rows[1..], id + 1, width, picks, hit, line)
    ensures Prints(rows, id, width, picks, hit, line)
  {
    hide WellShaped, Project;
    assert rows[1..][hit - (id + 1)] == rows[hit - id];
  }

  /** The full scan succeeds exactly when every row has the right number of fields, and then prints the
      matching rows, and only those, in file order, each under its own number. */
  lemma {:induction false} ScanMeans(rows: seq<Row>, id: int, width: nat, picks: seq<Pick>, filter: Filter)
    requires Fits(picks, width)
    ensures Scan(rows, id, width, picks, filter).Ok? <==> forall i :: 0 <= i < |rows| ==> WellShaped(rows[i], width)
    ensures Scan(rows, id, width, picks, filter).Ok? ==>
              var out, hits := Scan(rows, id, width, picks, filter).value, Hits(rows, id, width, filter);
              |out| == |hits| && forall i :: 0 <= i < |hits| ==> Prints(rows, id, width, picks, hits[i], out[i])
    decreases |rows|
  {
    hide Scan, WellShaped, FieldsOf, Project, Matches, Prints;
    ScanOk(rows, id, width, picks, filter);
    if rows == [] {
      NoRows(id, width, picks, filter);
    } else if Scan(rows, id, width, picks, filter).Ok? {
      var rest := rows[1..];
      ScanStep(rows, id, width, picks, filter);
      ScanMeans(rest, id + 1, width, picks, filter);
      var out, more := Scan(rest, id + 1, width, picks, filter).value, Hits(rest, id + 1, width, filter);
      forall i | 0 <= i < |more| ensures Prints(rows, id, width, picks, more[i], out[i]) {
        PrintsLater(rows, id, width, picks, more[i], out[i]);
      }
      FirstPrints(rows, id, width, picks);
    }
  }

  lemma NoRows(id: int, width: nat, picks: seq<Pick>, filter: Filter)
    requires Fits(picks, width)
    ensures Scan([], id, width, picks, filter) == Ok([])
  {
  }

  lemma FirstPrints(rows: seq<Row>, id: int, width: nat, picks: seq<Pick>)
    requires Fits(picks, width) && rows != [] && WellShaped(rows[0], width)
    ensures Prints(rows, id, width, picks, id, Project(picks, FieldsOf(rows[0], width), id))
  {
    hide WellShaped, Project;
  }

  lemma {:induction false} ShapedRowsParse(rows: seq<Row>, width: nat)
    requires forall i :: 0 <= i < |rows| ==> WellShaped(rows[i], width)
    ensures ParseRows(rows).Ok?
  {
    hide Csv.ParseLine;
    if rows != [] { ShapedRowsParse(rows[1..], width); }
  }

  lemma WithIdStep(row: seq<string>, rows: seq<seq<string>>, id: string)
    ensures WithId([row] + rows, id) == (if row != [] && row[0] == id then [row[1..]] else []) + WithId(rows, id)
  {
    assert ([row] + rows)[1..] == rows;
  }

  /** What the scan that prints ids prints under id `k`. */
  function NumberedWith(rows: seq<Row>, id: int, width: nat, picks: seq<Pick>, k: int): seq<seq<string>>
    requires Fits(picks, width) && forall i :: 0 <= i < |rows| ==> WellShaped(rows[i], width)
  {
    if id <= k < id + |rows| then [Project(picks, FieldsOf(rows[k - id], width), k)] else []
  }

  lemma NumberedStep(rows: seq<Row>, id: int, width: nat, picks: seq<Pick>, k: int)
    requires Fits(picks, width) && rows != [] && forall i :: 0 <= i < |rows| ==> WellShaped(rows[i], width)
    ensures NumberedWith(rows, id, width, picks, k) ==
            (if k == id then [Project(picks, FieldsOf(rows[0], width), id)] else [])
            + NumberedWith(rows[1..], id + 1, width, picks, k)
  {
    hide WellShaped, Project;
    if id < k < id + |rows| { assert rows[1..][k - (id + 1)] == rows[k - id]; }
  }

  /** In a scan that prints ids, the rows with id `k` are row number k and nothing else. */
  lemma {:induction false} ScanWithId(rows: seq<Row>, id: int, width: nat, picks: seq<Pick>, k: int)
    requires Fits(picks, width) && Fits([RowId] + picks, width) && INT_MIN <= k <= INT_MAX
    requires INT_MIN <= id && id + |rows| - 1 <= INT_MAX && Scan(rows, id, width, [RowId] + picks, Everything).Ok?
    ensures ParseRows(rows).Ok? && forall i :: 0 <= i < |rows| ==> WellShaped(rows[i], width)
    ensures WithId(Scan(rows, id, width, [RowId] + picks, Everything).value, FormatInt(k)) ==
            NumberedWith(rows, id, width, picks, k)
    decreases |rows|
  {
    hide Scan, WellShaped, FormatInt, Project, WithId, NumberedWith, ParseRows;
    ScanOk(rows, id, width, [RowId] + picks, Everything);
    ShapedRowsParse(rows, width);
    if rows == [] {
      NoRows(id, width, [RowId] + picks, Everything);
      NothingWithId(id, width, picks, k);
    } else {
      var fields := FieldsOf(rows[0], width);
      ScanStep(rows, id, width, [RowId] + picks, Everything);
      ScanWithId(rows[1..], id + 1, width, picks, k);
      FieldsWidth(rows[0], width);
      ProjectWithId(picks, fields, id);
      var line := [FormatInt(id)] + Project(picks, fields, id);
      assert line[1..] == Project(picks, fields, id);
      WithIdStep(line, Scan(rows[1..], id + 1, width, [RowId] + picks, Everything).value, FormatInt(k));
      NumberedStep(rows, id, width, picks, k);
      if FormatInt(id) == FormatInt(k) { FormatIntInjective(id, k); }
    }
  }

  lemma FieldsWidth(row: Row, width: nat)
    requires WellShaped(row, width)
    ensures |FieldsOf(row, width)| == width
  {
  }

  lemma NothingWithId(id: int, width: nat, picks: seq<Pick>, k: int)
    requires Fits(picks, width)
    ensures WithId([], FormatInt(k)) == NumberedWith([], id, width, picks, k) == []
  {
  }

  /** Selecting by id through the index returns exactly the rows that the full scan numbers with
      this id, whatever columns are selected. */
  lemma IndexedEqualsScan(t: Table, width: nat, plan: Plan, value: string, k: int)
    requires Agrees(t) && Fits(plan.picks, width) && Fits([RowId] + plan.picks, width)
    requires ParseIntStrict(value) == Some(k) && |DataRows(t.file)| <= INT_MAX
    requires ScanSelect(t, width, Plan(["id"] + plan.headers, [RowId] + plan.picks), Everything).Selected?
    ensures var scan := ScanSelect(t, width, Plan(["id"] + plan.headers, [RowId] + plan.picks), Everything);
            IndexSelect(t, width, plan, value).1 == Selected(plan.headers, WithId(scan.rows, FormatInt(k)))
  {
    hide Scan, RowsFrom, ReadEnd, Csv.ParseLine, FormatInt, Project, WithId, ParseRows;
    var rows := DataRows(t.file);
    ScanWithId(rows, 1, width, plan.picks, k);
    EnsureLoadedAgrees(t);
    if 1 <= k <= |rows| {
      RowAnswerIs(t.file, k, width, plan);
    }
  }

  /** The row found at the offset of row number k is row number k. */
  lemma RowAnswerIs(file: string, k: int, width: nat, plan: Plan)
    requires Fits(plan.picks, width) && 1 <= k <= |DataRows(file)| && WellShaped(DataRows(file)[k - 1], width)
    ensures var row := DataRows(file)[k - 1];
            RowAnswer(file, OffsetOf(DataRows(file), k), width, plan, k) ==
            Selected(plan.headers, [Project(plan.picks, FieldsOf(row, width), k)])
  {
    hide RowsFrom, LineText, LineEnd, Csv.ParseLine;
    RowAtOffset(file, LineEnd(file, 0), k - 1);
  }
}
