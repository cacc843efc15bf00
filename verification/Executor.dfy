/** The executor on the heap (`execution/executor.c`): it validates a statement, builds rows in
    place, drives the file and the index, and scans the file row by row.  Every method is proved to
    do what the functions of `Database` say. */
module Executor {
  import opened Basics
  import opened SqlAst
  import opened TableFile
  import opened Database
  import Csv = CsvFormat
  import ES = EngineSteps
  import Sql
  import TI = TableIndex

  // ----- INSERT -----------------------------------------------------------------------------

  method ValidateInsertColumns(schema: Schema, columns: seq<string>, values: seq<string>)
      returns (error: Option<ExecError>)
    ensures error == ValidateInsert(schema, columns, values)
  {
    if |columns| != |values| {
      return Some(CountMismatch);
    }
    for index := 0 to |columns|
      invariant FirstColumnError(schema, columns, values, 0) == FirstColumnError(schema, columns, values, index)
    {
      if columns[index] == "id" {
        return Some(ExplicitId);
      }
      if columns[index] !in schema.columns {
        return Some(UnknownColumn(columns[index]));
      }
      if HasNewline(values[index]) {
        return Some(NewlineInValue);
      }
    }
    return None;
  }

  lemma {:induction false} IndexOfPrefix(names: seq<string>, v: nat, name: string)
    requires v <= |names| && name in names[..v]
    ensures IndexOf(names[..v], name) == IndexOf(names, name) < v
  {
    var i, j := IndexOf(names[..v], name), IndexOf(names, name);
    assert names[..v][i] == names[i] == name;
    assert forall k :: 0 <= k < j ==> names[..j][k] == names[k];
    assert forall k :: 0 <= k < i ==> names[..v][..i][k] == names[k];
  }

  /** Whether column `c` of the schema has been given a value by the first `v` columns. */
  ghost predicate Given(schema: Schema, columns: seq<string>, v: nat, c: nat)
    requires v <= |columns| && c < |schema.columns|
  {
    IndexOf(schema.columns, schema.columns[c]) == c && schema.columns[c] in columns[..v]
  }

  /** What one more column changes in the row under construction. */
  lemma {:induction false} GivenStep(schema: Schema, columns: seq<string>, values: seq<string>, v: nat, c: nat)
    requires |columns| == |values| && v < |columns| && columns[v] in schema.columns && c < |schema.columns|
    requires columns[v] !in columns[..v]
    ensures var at := IndexOf(schema.columns, columns[v]);
            && (Given(schema, columns, v + 1, c) <==> Given(schema, columns, v, c) || c == at)
            && CellFor(schema, columns[..v + 1], values[..v + 1], c) ==
               if c == at then values[v] else CellFor(schema, columns[..v], values[..v], c)
  {
    var name, at := schema.columns[c], IndexOf(schema.columns, columns[v]);
    assert columns[..v + 1] == columns[..v] + [columns[v]];
    if name in columns[..v] {
      IndexOfPrefix(columns[..v + 1], v, name);
      assert columns[..v + 1][..v] == columns[..v];
    } else if name == columns[v] {
      assert forall k :: 0 <= k < v ==> columns[..v + 1][k] == columns[..v][k];
      assert IndexOf(columns[..v + 1], name) == v;
    }
  }

  lemma DistinctStep(columns: seq<string>, v: nat)
    requires v < |columns| && Distinct(columns[..v])
    ensures columns[v] !in columns[..v] ==> Distinct(columns[..v + 1])
    ensures columns[v] in columns[..v] ==> !Distinct(columns)
  {
    if columns[v] in columns[..v] {
      var i :| 0 <= i < v && columns[..v][i] == columns[v];
    } else {
      assert forall i :: 0 <= i < v ==> columns[i] == columns[..v][i];
    }
  }

  /** Fills a row of empty cells, marking each column as it is assigned. */
  method BuildInsertRow(schema: Schema, columns: seq<string>, values: seq<string>)
      returns (r: Result<seq<string>, ExecError>)
    requires Insertable(schema, columns, values)
    ensures r == if Distinct(columns) then Ok(RowFor(schema, columns, values)) else Err(DuplicateColumn)
  {
    var isSet := new bool[|schema.columns|](_ => false);
    var row := seq(|schema.columns|, _ => "");
    hide IndexOf, HasNewline;
    for v := 0 to |columns|
      invariant |row| == |schema.columns| && Distinct(columns[..v])
      invariant forall c :: 0 <= c < |row| ==> (isSet[c] <==> Given(schema, columns, v, c))
      invariant forall c :: 0 <= c < |row| ==> row[c] == CellFor(schema, columns[..v], values[..v], c)
    {
      var at := IndexOf(schema.columns, columns[v]);
      DistinctStep(columns, v);
      if isSet[at] {
        return Err(DuplicateColumn);
      }
      assert columns[v] !in columns[..v];
      forall c | 0 <= c < |row|
        ensures Given(schema, columns, v + 1, c) <==> Given(schema, columns, v, c) || c == at
        ensures CellFor(schema, columns[..v + 1], values[..v + 1], c) == if c == at then values[v] else row[c]
      {
        GivenStep(schema, columns, values, v, c);
      }
      isSet[at] := true;
      row := row[at := values[v]];
    }
    assert columns[..|columns|] == columns && values[..|values|] == values;
    r := Ok(row);
    assert row == RowFor(schema, columns, values);
  }

  // ----- SELECT -----------------------------------------------------------------------------

  /** The marker for the hidden row id in the array of selected columns. */
  const INTERNAL_ID: int := -1

  function PickOf(selected: int): Pick { if selected < 0 then RowId else Column(selected) }

  lemma {:induction false} PicksStep(schema: Schema, names: seq<string>, i: nat)
    requires i < |names|
    ensures var rest := PicksFor(schema, names[i + 1..]);
            PicksFor(schema, names[i..]) ==
            match PickFor(schema, names[i])
            case None => Err(names[i])
            case Some(pick) => if rest.Err? then rest else Ok([pick] + rest.value)
  {
    assert names[i..][1..] == names[i + 1..];
  }

  /** Writes one array entry per selected column; the array has one entry per schema column. */
  method BuildSelectIndexes(schema: Schema, selection: Columns) returns (plan: Result<Plan, ExecError>)
    requires InBounds(schema, selection)
    ensures plan == PlanFor(schema, selection)
  {
    var selectedIndexes := new int[|schema.columns|](_ => 0);
    if selection.List? {
      plan := SelectNames(schema, selection.names, selectedIndexes);
      return;
    }
    var headers: seq<string> := [];
    for index := 0 to |schema.columns|
      invariant headers == schema.columns[..index]
      invariant forall i :: 0 <= i < index ==> selectedIndexes[i] == i
    {
      headers := headers + [schema.columns[index]];
      selectedIndexes[index] := index;
    }
    var picks := ReadPicks(selectedIndexes, |schema.columns|);
    assert picks == AllColumns(|schema.columns|) && headers == schema.columns;
    plan := Ok(Plan(headers, picks));
  }

  method SelectNames(schema: Schema, names: seq<string>, selectedIndexes: array<int>)
      returns (plan: Result<Plan, ExecError>)
    requires InBounds(schema, List(names)) && selectedIndexes.Length == |schema.columns|
    modifies selectedIndexes
    ensures plan == PlanFor(schema, List(names))
  {
    hide PicksFor, IndexOf;
    var headers: seq<string> := [];
    ghost var picks: seq<Pick> := [];
    assert names[0..] == names && forall more: seq<Pick> :: [] + more == more;
    for index := 0 to |names|
      invariant headers == names[..index] && |picks| == index <= selectedIndexes.Length &&
                Selectable(schema, names[..index])
      invariant forall i :: 0 <= i < index ==> picks[i] == PickOf(selectedIndexes[i])
      invariant var rest := PicksFor(schema, names[index..]);
                PicksFor(schema, names) == if rest.Err? then rest else Ok(picks + rest.value)
    {
      PicksStep(schema, names, index);
      SelectableStep(schema, names, index);
      ghost var before, more := picks, PicksFor(schema, names[index + 1..]);
      if names[index] == "id" {
        selectedIndexes[index] := INTERNAL_ID;
        picks := picks + [RowId];
      } else if names[index] !in schema.columns {
        return Err(UnknownColumn(names[index]));
      } else {
        selectedIndexes[index] := IndexOf(schema.columns, names[index]);
        picks := picks + [Column(IndexOf(schema.columns, names[index]))];
      }
      headers := headers + [names[index]];
      assert more.Ok? ==> before + ([picks[index]] + more.value) == picks + more.value;
    }
    NoPicks(schema, names[|names|..]);
    assert headers == names && picks + [] == picks;
    if |names| == 0 {
      return Err(NothingSelected);
    }
    var result := ReadPicks(selectedIndexes, |names|);
    assert picks == result;
    plan := Ok(Plan(headers, result));
  }

  /** A known name still has an entry of the array to go to. */
  lemma SelectableStep(schema: Schema, names: seq<string>, i: nat)
    requires InBounds(schema, List(names)) && i < |names| && i <= |schema.columns| && Selectable(schema, names[..i])
    ensures names[i] == "id" || names[i] in schema.columns ==>
            Selectable(schema, names[..i + 1]) && i < |schema.columns|
  {
    assert names[..i + 1] == names[..i] + [names[i]];
  }

  lemma NoPicks(schema: Schema, names: seq<string>)
    requires names == []
    ensures PicksFor(schema, names) == Ok([])
  {
  }

  function ReadPicks(selectedIndexes: array<int>, count: nat): (picks: seq<Pick>)
    requires count <= selectedIndexes.Length
    reads selectedIndexes
    ensures |picks| == count && forall i :: 0 <= i < count ==> picks[i] == PickOf(selectedIndexes[i])
  {
    seq(count, i requires 0 <= i < count reads selectedIndexes => PickOf(selectedIndexes[i]))
  }

  /** One more line of a scan that has collected `out` so far. */
  lemma ScanLine(f: string, off: nat, id: int, width: nat, picks: seq<Pick>, filter: Filter)
    requires off < |f| && Fits(picks, width)
    ensures var text, next := LineText(f, off), LineEnd(f, off);
            var here := Scan(RowsFrom(f, off), id, width, picks, filter);
            if text == "" then here == Scan(RowsFrom(f, next), id, width, picks, filter)
            else match Csv.ParseLine(text)
                 case Err(e) => here == Err(ScanFailed(e))
                 case Ok(fields) =>
                   if |fields| != width then here == Err(RowShape) else
                   match Scan(RowsFrom(f, next), id + 1, width, picks, filter)
                   case Err(e) => here == Err(e)
                   case Ok(rest) =>
                     here == Ok((if Matches(filter, fields) then [Project(picks, fields, id)] else []) + rest)
  {
    hide ReadEnd, LineText, Csv.ParseLine, Project;
    var rows := RowsFrom(f, off);
    if LineText(f, off) != "" {
      assert rows[1..] == RowsFrom(f, LineEnd(f, off));
    }
  }

  /** Reads the file line by line and collects the selected columns of matching rows. */
  method ScanTable(f: string, width: nat, picks: seq<Pick>, filter: Filter)
      returns (r: Result<seq<seq<string>>, ExecError>)
    requires Fits(picks, width)
    ensures r == Scan(DataRows(f), 1, width, picks, filter)
  {
    hide ReadEnd, LineText, RowsFrom, Csv.ParseLine, Project, Matches, Scan;
    var rows: seq<seq<string>> := [];
    var currentId, off := 1, LineEnd(f, 0);
    ghost var total := Scan(DataRows(f), 1, width, picks, filter);
    assert forall more: seq<seq<string>> :: [] + more == more;
    while off < |f|
      invariant off <= |f|
      invariant var rest := Scan(RowsFrom(f, off), currentId, width, picks, filter);
                total == if rest.Err? then rest else Ok(rows + rest.value)
      decreases |f| - off
    {
      ScanLine(f, off, currentId, width, picks, filter);
      var line := LineText(f, off);
      off := LineEnd(f, off);
      if line == "" {
        continue;
      }
      var fields := Csv.ParseCsvLine(line);
      if fields.Err? {
        return Err(ScanFailed(fields.error));
      }
      if |fields.value| != width {
        return Err(RowShape);
      }
      var rowId := currentId;
      currentId := currentId + 1;
      ghost var before, rest := rows, Scan(RowsFrom(f, off), currentId, width, picks, filter);
      if Matches(filter, fields.value) {
        rows := rows + [Project(picks, fields.value, rowId)];
        assert rest.Ok? ==> before + ([Project(picks, fields.value, rowId)] + rest.value) == rows + rest.value;
      } else {
        assert rest.Ok? ==> before + ([] + rest.value) == rows + rest.value;
      }
    }
    ScanEnd(f, currentId, width, picks, filter);
    assert rows + [] == rows;
    r := Ok(rows);
  }

  lemma ScanEnd(f: string, id: int, width: nat, picks: seq<Pick>, filter: Filter)
    requires Fits(picks, width)
    ensures Scan(RowsFrom(f, |f|), id, width, picks, filter) == Ok([])
  {
  }

  // ----- the engine ---------------------------------------------------------------------------

  /** The schemas, the files and the index registry of one data directory. */
  class Engine {
    const catalog: map<string, Schema>
    const files: map<string, File>
    const registry: TI.Registry

    ghost predicate Valid()
      reads registry, registry.Repr
    {
      && registry.Valid()
      && (forall t <- catalog :: ValidSchema(catalog[t]) && catalog[t].storageName in files)
      && (forall n <- files :: files[n] !in registry.Repr)
      && (forall n, m :: n in files && m in files && n != m ==> files[n] != files[m])
    }

    ghost function TableOf(name: string): Table
      requires Valid() && name in files
      reads registry, registry.Repr, files.Values
    {
      Table(files[name].bytes, registry.ViewOf(name))
    }

    /** Only table `name` may differ from before. */
    twostate predicate OnlyTable(name: string)
      requires old(Valid()) && Valid()
      reads registry, registry.Repr, files.Values
    {
      forall n :: n in files && n != name ==> TableOf(n) == old(TableOf(n))
    }

    constructor (catalog: map<string, Schema>, files: map<string, File>)
      requires forall t <- catalog :: ValidSchema(catalog[t]) && catalog[t].storageName in files
      requires forall n, m :: n in files && m in files && n != m ==> files[n] != files[m]
      ensures Valid() && this.catalog == catalog && this.files == files
      ensures forall n <- files :: TableOf(n) == Table(old(files[n].bytes), UNLOADED)
    {
      this.catalog, this.files := catalog, files;
      registry := new TI.Registry();
    }

    method ExecuteInsert(schema: Schema, columns: seq<string>, values: seq<string>, fails: bool) returns (a: Answer)
      requires Valid() && schema.storageName in files
      modifies registry.Repr, files[schema.storageName]
      ensures Valid() && OnlyTable(schema.storageName)
      ensures (TableOf(schema.storageName), a) ==
              ExecInsert(old(TableOf(schema.storageName)), schema, columns, values, fails)
    {
      hide EnsureLoaded, Register, RowFor, Csv.EncodeRow, ValidateInsert, TI.Registry.ViewOf, TI.Registry.Valid;
      var name := schema.storageName;
      var file := files[name];
      var error := ValidateInsertColumns(schema, columns, values);
      if error.Some? {
        return Failed(error.value);
      }
      var load, nextId := registry.GetNextId(name, file);
      if load.Some? {
        return Failed(LoadFailed(load.value));
      }
      ValidateInsertMeans(schema, columns, values);
      var row := BuildInsertRow(schema, columns, values);
      if row.Err? {
        return Failed(row.error);
      }
      var rowOffset := file.AppendRow(row.value);
      var ok := registry.RegisterRow(name, file, nextId, rowOffset, fails);
      if !ok {
        registry.Invalidate(name);
        return Failed(RegistrationFailed);
      }
      a := Inserted;
    }

    method ExecuteIndexSelect(schema: Schema, plan: Plan, value: string) returns (a: Answer)
      requires Valid() && schema.storageName in files && Fits(plan.picks, |schema.columns|)
      modifies registry.Repr
      ensures Valid() && OnlyTable(schema.storageName)
      ensures (TableOf(schema.storageName), a) ==
              IndexSelect(old(TableOf(schema.storageName)), |schema.columns|, plan, value)
    {
      hide EnsureLoaded, ReadRowAt, Project, ParseIntStrict, TI.Registry.ViewOf, TI.Registry.Valid;
      var name := schema.storageName;
      var file := files[name];
      var whereId := ParseIntStrict(value);
      if whereId.None? {
        return Failed(NotAnInteger);
      }
      var load, offset := registry.FindRow(name, file, whereId.value);
      if load.Some? {
        return Failed(LoadFailed(load.value));
      }
      if offset.None? {
        return Selected(plan.headers, []);
      }
      if offset.value < 0 {
        return Failed(ReadFailed(NothingThere));
      }
      var fields := file.ReadRow(offset.value);
      if fields.Err? {
        return Failed(ReadFailed(fields.error));
      }
      if |fields.value| != |schema.columns| {
        return Failed(RowShape);
      }
      a := Selected(plan.headers, [Project(plan.picks, fields.value, whereId.value)]);
    }

    method ExecuteSelect(schema: Schema, selection: Columns, condition: Option<Condition>) returns (a: Answer)
      requires Valid() && schema.storageName in files
      requires InBounds(schema, selection)
      modifies registry.Repr
      ensures Valid() && OnlyTable(schema.storageName)
      ensures (TableOf(schema.storageName), a) ==
              ExecSelect(old(TableOf(schema.storageName)), schema, selection, condition)
    {
      hide EnsureLoaded, Scan, PlanFor, IndexSelect, IndexOf, TI.Registry.ViewOf, TI.Registry.Valid;
      var plan := BuildSelectIndexes(schema, selection);
      if plan.Err? {
        return Failed(plan.error);
      }
      PlanFits(schema, selection);
      var filter := Everything;
      if condition.Some? {
        var column, value := condition.value.column, condition.value.value;
        if column == "id" {
          a := ExecuteIndexSelect(schema, plan.value, value);
          return;
        }
        if column !in schema.columns {
          return Failed(UnknownColumn(column));
        }
        filter := Equals(IndexOf(schema.columns, column), value);
      }
      var file := files[schema.storageName];
      if file.bytes == "" {
        return Failed(LoadFailed(EmptyFile));
      }
      var rows := ScanTable(file.bytes, |schema.columns|, plan.value.picks, filter);
      if rows.Err? {
        return Failed(rows.error);
      }
      a := Selected(plan.value.headers, rows.value);
    }

    /** The state of all tables. */
    ghost function Tables(): Db
      requires Valid()
      reads registry, registry.Repr, files.Values
    {
      map n | n in files :: TableOf(n)
    }

    method ExecuteStatement(stmt: Statement, fails: bool) returns (a: Answer)
      requires Valid() && SafeStatement(catalog, stmt)
      modifies registry.Repr, files.Values
      ensures Valid() && (Tables(), a) == ExecStatement(catalog, old(Tables()), stmt, fails)
    {
      hide ExecInsert, ExecSelect, TI.Registry.ViewOf, TI.Registry.Valid;
      if stmt.table !in catalog {
        return Failed(NoSuchTable);
      }
      var schema := catalog[stmt.table];
      match stmt
      case Insert(_, columns, values) =>
        a := ExecuteInsert(schema, columns, values, fails);
        assert Tables() == old(Tables())[schema.storageName := TableOf(schema.storageName)];
      case Select(_, selection, condition) =>
        a := ExecuteSelect(schema, selection, condition);
        assert Tables() == old(Tables())[schema.storageName := TableOf(schema.storageName)];
    }

    /** Reads and executes one SQL text. */
    method ExecuteQuery(sql: string, fails: bool) returns (r: ES.Reply)
      requires Valid() && '\0' !in sql && ES.Safe(catalog, ES.Query(sql, fails))
      modifies registry.Repr, files.Values
      ensures Valid() && (Tables(), r) == ES.Execute(catalog, old(Tables()), ES.Query(sql, fails))
    {
      hide ExecStatement, TI.Registry.ViewOf, TI.Registry.Valid, Sql.ParseSql;
      var stmt := Sql.ReadStatement(sql);
      if stmt.None? {
        return ES.SyntaxError;
      }
      var a := ExecuteStatement(stmt.value, fails);
      r := ES.Executed(a);
    }
  }
}
