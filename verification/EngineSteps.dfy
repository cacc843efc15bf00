/** One query inside the engine, as the small steps between which other threads could come in: parsing,
    taking the next id, building the row, appending it, entering it in the index; or finding and reading a
    row; or scanning the file line by line.  Left alone, the steps add up to the whole statement. */
module EngineSteps {
  import opened Basics
  import opened SqlAst
  import opened TableFile
  import opened Database
  import Csv = CsvFormat
  import Sql

  /** A query; `fails` tells whether registering the row of an INSERT in the index fails. */
  datatype Query = Query(sql: string, fails: bool)

  /** `Corrupted`: the engine has written behind the end of an array, and nothing is known any more. */
  datatype Reply = SyntaxError | Executed(answer: Answer) | Corrupted

  /** The queries on which the engine stays inside its array of selected columns. */
  predicate Safe(catalog: Catalog, q: Query) {
    Sql.ParseSql(q.sql).Some? ==> SafeStatement(catalog, Sql.ParseSql(q.sql).value)
  }

  /** One query at a time: what the engine does when nobody else is there. */
  function Execute(catalog: Catalog, db: Db, q: Query): (Db, Reply) {
    match Sql.ParseSql(q.sql)
    case None => (db, SyntaxError)
    case Some(stmt) =>
      var (db', answer) := ExecStatement(catalog, db, stmt, q.fails);
      (db', Executed(answer))
  }

  /** A text that is no statement is answered as such and changes nothing. */
  lemma NoStatement(catalog: Catalog, db: Db, q: Query)
    requires Sql.ParseSql(q.sql) == None
    ensures Execute(catalog, db, q) == (db, SyntaxError)
  {
  }

  // ----- the engine in small steps --------------------------------------------------------------------

  /** What a worker is about to do; only the tables are shared. */
  datatype Work =
    | Begin(q: Query)
    | TakeId(schema: Schema, columns: seq<string>, values: seq<string>, fails: bool)
    | BuildRow(schema: Schema, columns: seq<string>, values: seq<string>, fails: bool, id: int)
    | Append(schema: Schema, row: string, fails: bool, id: int)
    | EnterIndex(schema: Schema, fails: bool, id: int, offset: int)
    | DropIndex(schema: Schema)
    | FindRow(schema: Schema, plan: Plan, id: int)
    | ReadRow(schema: Schema, plan: Plan, id: int, offset: int)
    | OpenTable(schema: Schema, plan: Plan, filter: Filter)
    | NextLine(schema: Schema, plan: Plan, filter: Filter, off: nat, id: int, rows: seq<seq<string>>)
    | Answered(reply: Reply)

  function Fail(error: ExecError): Work { Answered(Executed(Failed(error))) }

  function TableIn(db: Db, schema: Schema): Table {
    if schema.storageName in db then db[schema.storageName] else Table("", UNLOADED)
  }

  /** What a parsed statement does first. */
  function Prepare(catalog: Catalog, db: Db, stmt: Statement, fails: bool): Work {
    if stmt.table !in catalog || catalog[stmt.table].storageName !in db then Fail(NoSuchTable) else
    var schema := catalog[stmt.table];
    match stmt
    case Insert(_, columns, values) =>
      (match ValidateInsert(schema, columns, values)
       case Some(error) => Fail(error)
       case None => TakeId(schema, columns, values, fails))
    case Select(_, selection, condition) =>
      if !InBounds(schema, selection) then Answered(Corrupted) else
      match PlanFor(schema, selection)
      case Err(error) => Fail(error)
      case Ok(plan) => PrepareSelect(schema, plan, condition)
  }

  function PrepareSelect(schema: Schema, plan: Plan, condition: Option<Condition>): Work {
    match condition
    case None => OpenTable(schema, plan, Everything)
    case Some(Condition(column, value)) =>
      if column == "id" then
        match ParseIntStrict(value)
        case None => Fail(NotAnInteger)
        case Some(id) => FindRow(schema, plan, id)
      else if column !in schema.columns then Fail(UnknownColumn(column))
      else OpenTable(schema, plan, Equals(IndexOf(schema.columns, column), value))
  }

  /** One line of a full scan. */
  function ScanLine(file: string, w: Work): Work
    requires w.NextLine?
  {
    if w.off >= |file| then Answered(Executed(Selected(w.plan.headers, w.rows))) else
    var next, text := LineEnd(file, w.off), LineText(file, w.off);
    if text == "" then w.(off := next) else
    match Csv.ParseLine(text)
    case Err(e) => Fail(ScanFailed(e))
    case Ok(fields) =>
      if |fields| != |w.schema.columns| || !Fits(w.plan.picks, |fields|) then Fail(RowShape) else
      w.(off := next, id := w.id + 1,
         rows := if Matches(w.filter, fields) then w.rows + [Project(w.plan.picks, fields, w.id)] else w.rows)
  }

  /** One step of a worker that holds the lock. */
  function Micro(catalog: Catalog, db: Db, w: Work): (Db, Work)
    requires !w.Answered?
  {
    if w.Begin? then
      match Sql.ParseSql(w.q.sql)
      case None => (db, Answered(SyntaxError))
      case Some(stmt) => (db, Prepare(catalog, db, stmt, w.q.fails))
    else
    var name, t := w.schema.storageName, TableIn(db, w.schema);
    match w
    case TakeId(schema, columns, values, fails) =>
      var (t', load) := EnsureLoaded(t);
      (db[name := t'], if load.Some? then Fail(LoadFailed(load.value))
          else BuildRow(schema, columns, values, fails, t'.index.nextId))
    case BuildRow(schema, columns, values, fails, id) =>
      (db, if |columns| != |values| || !Distinct(columns) then Fail(DuplicateColumn)
           else Append(schema, Csv.EncodeRow(RowFor(schema, columns, values)), fails, id))
    case Append(schema, row, fails, id) =>
      (db[name := AppendTo(t, row)], EnterIndex(schema, fails, id, AppendOffset(t.file)))
    case EnterIndex(schema, fails, id, offset) =>
      var (t', ok) := Register(t, id, offset, fails);
      (db[name := t'], if ok then Answered(Executed(Inserted)) else DropIndex(schema))
    case DropIndex(_) => (db[name := Invalidate(t)], Fail(RegistrationFailed))
    case FindRow(schema, plan, id) =>
      var (t', load) := EnsureLoaded(t);
      (db[name := t'],
       if load.Some? then Fail(LoadFailed(load.value))
       else if id !in t'.index.ids then Answered(Executed(Selected(plan.headers, [])))
       else ReadRow(schema, plan, id, t'.index.ids[id]))
    case ReadRow(schema, plan, id, offset) =>
      (db, if !Fits(plan.picks, |schema.columns|) then Fail(RowShape)
           else Answered(Executed(RowAnswer(t.file, offset, |schema.columns|, plan, id))))
    case OpenTable(schema, plan, filter) =>
      (db, if t.file == "" then Fail(LoadFailed(EmptyFile))
          else NextLine(schema, plan, filter, LineEnd(t.file, 0), 1, []))
    case NextLine(_, _, _, _, _, _) => (db, ScanLine(t.file, w))
  }

  function Stage(w: Work): nat {
    match w
    case Begin(_) => 6
    case TakeId(_, _, _, _) => 5
    case BuildRow(_, _, _, _, _) => 4
    case Append(_, _, _, _) => 3
    case EnterIndex(_, _, _, _) => 2
    case DropIndex(_) => 1
    case FindRow(_, _, _) => 2
    case ReadRow(_, _, _, _) => 1
    case OpenTable(_, _, _) => 2
    case NextLine(_, _, _, _, _, _) => 1
    case Answered(_) => 0
  }

  function Left(db: Db, w: Work): nat {
    if w.NextLine? && w.off < |TableIn(db, w.schema).file| then |TableIn(db, w.schema).file| - w.off else 0
  }

  lemma MicroProgress(catalog: Catalog, db: Db, w: Work)
    requires !w.Answered?
    ensures var (db', w') := Micro(catalog, db, w);
            Stage(w') < Stage(w) || (Stage(w') == Stage(w) && Left(db', w') < Left(db, w))
  {
    hide Register, EnsureLoaded, ValidateInsert, PlanFor, Sql.ParseSql, RowAnswer, LineText, ParseIntStrict,
        Csv.ParseLine, Csv.EncodeRow;
  }

  /** Running a worker to its answer while nobody else touches the tables. */
  function Finish(catalog: Catalog, db: Db, w: Work): (Db, Reply)
    decreases Stage(w), Left(db, w)
  {
    if w.Answered? then (db, w.reply) else
    MicroProgress(catalog, db, w);
    var (db', w') := Micro(catalog, db, w);
    Finish(catalog, db', w')
  }

  // ----- the small steps add up to the statement -----------------------------------------------------------

  lemma FinishStep(catalog: Catalog, db: Db, w: Work)
    requires !w.Answered?
    ensures Finish(catalog, db, w) == Finish(catalog, Micro(catalog, db, w).0, Micro(catalog, db, w).1)
  {
  }

  lemma FinishAnswered(catalog: Catalog, db: Db, reply: Reply)
    ensures Finish(catalog, db, Answered(reply)) == (db, reply)
  {
  }

  /** What remains of a scan. */
  lemma {:induction false} FinishScan(catalog: Catalog, db: Db, w: Work)
    requires w.NextLine? && Fits(w.plan.picks, |w.schema.columns|) && w.off <= |TableIn(db, w.schema).file|
    ensures Finish(catalog, db, w) ==
            (db, match Scan(RowsFrom(TableIn(db, w.schema).file, w.off), w.id, |w.schema.columns|, w.plan.picks,
                w.filter)
                 case Ok(rest) => Executed(Selected(w.plan.headers, w.rows + rest))
                 case Err(e) => Executed(Failed(e)))
    decreases Left(db, w)
  {
    hide Finish, LineText, Csv.ParseLine, Project, Matches, LineEnd;
    FinishStep(catalog, db, w);
    var file := TableIn(db, w.schema).file;
    var w' := ScanLine(file, w);
    var scan := Scan(RowsFrom(file, w.off), w.id, |w.schema.columns|, w.plan.picks, w.filter);
    if w'.Answered? {
      FinishAnswered(catalog, db, w'.reply);
      assert w.rows + [] == w.rows;
    } else {
      FinishScan(catalog, db, w');
      if scan.Ok? {
        var rest := Scan(RowsFrom(file, w'.off), w'.id, |w.schema.columns|, w.plan.picks, w.filter);
        assert rest.Ok? && w'.rows + rest.value == w.rows + scan.value;
      }
    }
  }

  lemma FinishSelect(catalog: Catalog, db: Db, schema: Schema, selection: Columns, condition: Option<Condition>)
    requires schema.storageName in db && PlanFor(schema, selection).Ok?
    ensures var w := PrepareSelect(schema, PlanFor(schema, selection).value, condition);
            var (t, answer) := ExecSelect(db[schema.storageName], schema, selection, condition);
            Finish(catalog, db, w) == (db[schema.storageName := t], Executed(answer))
  {
    hide Finish, PlanFor, ParseIntStrict, EnsureLoaded, RowAnswer, Scan, RowsFrom, LineEnd;
    var plan := PlanFor(schema, selection).value;
    PlanFits(schema, selection);
    var w := PrepareSelect(schema, plan, condition);
    var t := db[schema.storageName];
    assert db[schema.storageName := t] == db;
    if w.OpenTable? {
      FinishOpen(catalog, db, w);
    } else if w.FindRow? {
      FinishFind(catalog, db, w);
    } else {
      FinishAnswered(catalog, db, w.reply);
    }
  }

  lemma FinishOpen(catalog: Catalog, db: Db, w: Work)
    requires w.OpenTable? && w.schema.storageName in db && Fits(w.plan.picks, |w.schema.columns|)
    ensures Finish(catalog, db, w) ==
            (db, Executed(ScanSelect(db[w.schema.storageName], |w.schema.columns|, w.plan, w.filter)))
  {
    hide Finish, Scan, RowsFrom, ScanLine;
    FinishStep(catalog, db, w);
    var w' := Micro(catalog, db, w).1;
    if w'.Answered? {
      FinishAnswered(catalog, db, w'.reply);
    } else {
      FinishScan(catalog, db, w');
      assert forall rest: seq<seq<string>> :: |rest| >= 0 ==> [] + rest == rest;
    }
  }

  lemma FinishFind(catalog: Catalog, db: Db, w: Work)
    requires w.FindRow? && w.schema.storageName in db && Fits(w.plan.picks, |w.schema.columns|)
    ensures var (t, load) := EnsureLoaded(db[w.schema.storageName]);
            Finish(catalog, db, w) ==
            (db[w.schema.storageName := t],
             Executed(if load.Some? then Failed(LoadFailed(load.value))
                      else if w.id !in t.index.ids then Selected(w.plan.headers, [])
                      else RowAnswer(t.file, t.index.ids[w.id], |w.schema.columns|, w.plan, w.id)))
  {
    hide Finish, EnsureLoaded, RowAnswer;
    FinishStep(catalog, db, w);
    var (db', w') := Micro(catalog, db, w);
    if w'.Answered? {
      FinishAnswered(catalog, db', w'.reply);
    } else {
      FinishStep(catalog, db', w');
      FinishAnswered(catalog, db', Micro(catalog, db', w').1.reply);
    }
  }

  /** From the appended row on. */
  lemma FinishAppend(catalog: Catalog, db: Db, w: Work)
    requires w.Append? && w.schema.storageName in db
    ensures var t := db[w.schema.storageName];
            var (t', ok) := Register(AppendTo(t, w.row), w.id, AppendOffset(t.file), w.fails);
            Finish(catalog, db, w) ==
            (db[w.schema.storageName := if ok then t' else Invalidate(t')],
             Executed(if ok then Inserted else Failed(RegistrationFailed)))
  {
    hide Finish, Register, AppendTo, Invalidate, AppendOffset;
    var name, t := w.schema.storageName, db[w.schema.storageName];
    FinishStep(catalog, db, w);
    var (db1, w1) := Micro(catalog, db, w);
    FinishStep(catalog, db1, w1);
    var (db2, w2) := Micro(catalog, db1, w1);
    var (t', ok) := Register(AppendTo(t, w.row), w.id, AppendOffset(t.file), w.fails);
    assert db2 == db[name := t'];
    if ok {
      FinishAnswered(catalog, db2, w2.reply);
    } else {
      FinishStep(catalog, db2, w2);
      var (db3, w3) := Micro(catalog, db2, w2);
      assert db3 == db[name := Invalidate(t')];
      FinishAnswered(catalog, db3, w3.reply);
    }
  }

  lemma FinishInsert(catalog: Catalog, db: Db, schema: Schema, columns: seq<string>, values: seq<string>, fails: bool)
    requires schema.storageName in db && ValidateInsert(schema, columns, values).None?
    ensures var (t, answer) := ExecInsert(db[schema.storageName], schema, columns, values, fails);
            Finish(catalog, db, TakeId(schema, columns, values, fails)) ==
                (db[schema.storageName := t], Executed(answer))
  {
    hide Finish, ValidateInsert, EnsureLoaded, Register, AppendTo, Invalidate, AppendOffset, RowFor, Csv.EncodeRow,
        Distinct;
    var w, name := TakeId(schema, columns, values, fails), schema.storageName;
    FinishStep(catalog, db, w);
    var (db1, w1) := Micro(catalog, db, w);
    if w1.Answered? {
      FinishAnswered(catalog, db1, w1.reply);
    } else {
      FinishStep(catalog, db1, w1);
      var w2 := Micro(catalog, db1, w1).1;
      if w2.Answered? {
        FinishAnswered(catalog, db1, w2.reply);
      } else {
        FinishAppend(catalog, db1, w2);
        var t := ExecInsert(db[name], schema, columns, values, fails).0;
        assert db1[name := t] == db[name := t];
      }
    }
  }

  /** Alone with the tables, the small steps of a query do what the whole query does ... */
  lemma FinishIsExecute(catalog: Catalog, db: Db, q: Query)
    requires Safe(catalog, q)
    ensures Finish(catalog, db, Begin(q)) == Execute(catalog, db, q)
  {
    hide Finish, Sql.ParseSql, ValidateInsert, PlanFor, ExecInsert, ExecSelect, PrepareSelect, InBounds;
    FinishStep(catalog, db, Begin(q));
    var w := Micro(catalog, db, Begin(q)).1;
    var stmt := Sql.ParseSql(q.sql);
    if w.Answered? {
      FinishAnswered(catalog, db, w.reply);
    }
    if stmt.Some? && stmt.value.table in catalog && catalog[stmt.value.table].storageName in db {
      StatementFinishes(catalog, db, stmt.value, q.fails);
    }
  }

  /** ... and only for those queries. */
  lemma FinishIsExecuteIff(catalog: Catalog, db: Db, q: Query)
    requires forall table <- catalog :: catalog[table].storageName in db
    ensures Finish(catalog, db, Begin(q)) == Execute(catalog, db, q) <==> Safe(catalog, q)
  {
    if Safe(catalog, q) {
      FinishIsExecute(catalog, db, q);
    } else {
      hide Finish, Sql.ParseSql, InBounds, ExecStatement;
      FinishStep(catalog, db, Begin(q));
      FinishAnswered(catalog, db, Corrupted);
    }
  }

  /** A text that the parser accepts and on which the engine overruns its array: one column, selected twice. */
  lemma SelectedTwice(name: string)
    ensures Sql.ParseSql("SELECT a, a FROM t;") == Some(Select("t", List(["a", "a"]), None))
    ensures !Safe(map["t" := Schema(name, ["a"])], Query("SELECT a, a FROM t;", false))
  {
    hide Sql.ParseSql, InBounds;
    Sql.SelectedTwiceParses();
    TwiceOutOfBounds(name);
  }

  lemma TwiceOutOfBounds(name: string)
    ensures !InBounds(Schema(name, ["a"]), List(["a", "a"]))
  {
    assert ["a", "a"][..2] == ["a", "a"];
  }

  lemma StatementFinishes(catalog: Catalog, db: Db, stmt: Statement, fails: bool)
    requires SafeStatement(catalog, stmt) && stmt.table in catalog && catalog[stmt.table].storageName in db
    ensures var (db', answer) := ExecStatement(catalog, db, stmt, fails);
            Finish(catalog, db, Prepare(catalog, db, stmt, fails)) == (db', Executed(answer))
  {
    hide Finish, ValidateInsert, PlanFor;
    var schema, w := catalog[stmt.table], Prepare(catalog, db, stmt, fails);
    assert db[schema.storageName := db[schema.storageName]] == db;
    match stmt
    case Insert(_, columns, values) =>
      if ValidateInsert(schema, columns, values).None? {
        FinishInsert(catalog, db, schema, columns, values, fails);
      } else {
        FinishAnswered(catalog, db, w.reply);
      }
    case Select(_, selection, condition) =>
      if PlanFor(schema, selection).Ok? {
        FinishSelect(catalog, db, schema, selection, condition);
      } else {
        FinishAnswered(catalog, db, w.reply);
      }
  }
}
