# Verified model of the SQL server

The repository is a small SQL engine inside a multithreaded HTTP server. Tables are CSV files; a row has
no id column, its id is its number among the non-blank data lines, and an in-memory B+ tree per table maps
ids to byte offsets. Worker threads take client connections from a bounded queue, frame HTTP requests by
Content-Length, and execute SQL texts under a reader/writer lock. This project models these parts in
Dafny and proves what they are meant to guarantee, for all inputs, all sequences of statements and all
interleavings.

| file | content |
|---|---|
| `BPlusTreeModel.dfy`, `BPlusTree.dfy` | the tree as a value; heap nodes with arrays and a leaf chain that represent it |
| `Text.dfy`, `CsvFormat.dfy`, `CsvLines.dfy`, `TableFile.dfy`, `TableLines.dfy` | bytes and numbers, CSV lines, the table file as a byte sequence read in 4096-byte buffers |
| `Database.dfy`, `Answers.dfy`, `DatabaseRuns.dfy`, `LongRows.dfy` | statements as functions on file and index; what they answer, on names and fields; what holds over whole sequences of statements |
| `TableIndex.dfy`, `Executor.dfy` | registry, index entries and executor as classes that update their state in place |
| `SqlAst.dfy`, `SqlLexer.dfy`, `SqlParser.dfy`, `Sql.dfy`, `SqlTexts.dfy`, `LockClassifier.dfy` | the two readers of SQL text |
| `LockManager.dfy`, `JobQueue.dfy`, `ThreadPool.dfy` | lock, queue and pool: mutex-protected sections as steps, with spurious wake-ups |
| `EngineSteps.dfy`, `Serialisation.dfy` | the engine in small steps, and concurrent workers around it |
| `HttpProtocol.dfy`, `HttpReceive.dfy`, `HttpMessages.dfy` | request parsing, the receive loop, and requests by their bytes |

Code that updates state is modelled by classes, arrays and loops; each method is proved to compute a
specification function, and the properties are lemmas about those functions. Protocols between threads are
step systems: one step per mutex-protected section, a thread in a condition wait being asleep or awake and
about to check again. A byte is the character with that code.

Where the code differs from what one might expect, the model follows the code:

- A written row keeps index and file in agreement if and only if it has at most 4095 bytes, the most that
  `fgets` on a 4096-byte buffer reads (`DatabaseRuns.InsertEffect`). A row of exactly 4095 bytes still
  works, because its line end is then read as a blank line. Over whole sequences of statements the condition is
  `LongRows.RunAgreesIff`; what a client sees after a longer row is `LongRows.LongInsertDisagrees`.
- The lexer accepts an unterminated literal exactly when the input ends in a quote
  (`SqlLexer.AcceptedWhen`); no such text is a statement (`Sql.AcceptedTextsClosed`).
- With a request limit from 16 to 4095 bytes the outcome depends on how `recv` cuts the stream, because
  the first buffer is larger than the limit; for all other limits it does not (`HttpReceive.IndependentIff`).
- A call of shutdown promises that every accepted job is finished exactly if it is the first
  (`ThreadPool.ShutdownFinishesAll`, `ThreadPool.ReturnsEarlyIff`); a later call returns at once, possibly
  with jobs still queued (`ThreadPool.EarlyReturn`).
- The executor writes behind its array of selected columns exactly when more names are known, from the front
  of the SELECT list, than the schema has columns (`Database.FillIff`), as in `SELECT a, a FROM t;` on a table
  with one column (`EngineSteps.SelectedTwice`). The concurrency theorems are about queries that do not.

Environment: what the file system holds at the start, which registrations fail for lack of memory, how
`recv` cuts the stream, the order in which threads move and which sleeper a signal wakes are all arbitrary
parameters.

## Model

| member | source | states |
|---|---|---|
| `Serialisation.Serialisable` | SERVER-RUNTIME/src/db_server_runtime.c:271-274 | In every interleaving of any number of workers under SERIAL_ALL that are asked only queries in bounds (`EngineSteps.Safe`: no column list overruns the executor's array), every answer given equals the answer of the same query when the queries are executed one at a time in lock-acquisition order; whenever no query is under way, all files and indexes equal those of that serial execution and every query has been answered |
| `Serialisation.ConcurrentInserts` | week8-team7-db-api/src/execution/executor.c:202-230 | After any such interleaving, a table holds its old rows followed by one row per INSERT that got as far as writing, in lock order; row i has id i and the loaded index maps it to its offset, so concurrent INSERTs take distinct gap-free ids |
| `Serialisation.NeverStuck` | SERVER-RUNTIME/src/db_server_runtime.c:271-274 | While some query waits or is under way, some worker has a step that takes the lock, works or leaves |
| `Serialisation.StepInv` | SERVER-RUNTIME/src/db_server_runtime.c:271-274 | Every step of every worker keeps: worker and lock state match, whoever works is last in the lock order, and finishing it alone gives the serial result |
| `Serialisation.WorksAlone` | SERVER-CONCURRENCY/src/lock_manager.c:18-31 | Under SERIAL_ALL two workers are never inside the engine together |
| `Serialisation.SerialTable` | week8-team7-db-api/src/execution/executor.c:769-776 | A serial execution does to each table exactly what the statements on that table do |
| `Serialisation.JobLockDoesNothing` | SERVER-RUNTIME/src/db_server_runtime.c:435 | Acquiring and releasing the lock in mode NONE, as a worker does around a whole job, leaves every counter as it is and wakes nobody |
| `Serialisation.NeverNested` | SERVER-CONCURRENCY/src/thread_pool.c:38-40 | In every reachable state, a worker about to take a job or to ask for a query neither holds the lock nor waits for it, and the call is possible: no worker asks for the lock while holding it |
| `EngineSteps.FinishIsExecute` | week8-team7-db-api/src/execution/executor.c:178-237 | For a query in bounds, the steps parse, take the next id, build the row, append, register or invalidate, find, read, and scan line by line, left alone, add up to the whole statement |
| `EngineSteps.FinishIsExecuteIff` | week8-team7-db-api/src/execution/executor.c:606 | On a complete data directory this holds for the queries in bounds and for no others: otherwise the engine writes behind its array of selected columns |
| `EngineSteps.SelectedTwice` | week8-team7-db-api/src/execution/executor.c:259-289 | `SELECT a, a FROM t;` is accepted by the parser and out of bounds on a table with the one column a |
| `EngineSteps.FinishScan` | week8-team7-db-api/src/execution/executor.c:683-740 | The rest of a line-by-line scan from any offset gives the rows collected so far followed by the scan of the remaining rows |
| `EngineSteps.FinishInsert` | week8-team7-db-api/src/execution/executor.c:178-237 | An INSERT taken apart into its steps has the effect and the answer of the whole INSERT, in success and in every failure |
| `EngineSteps.MicroProgress` | week8-team7-db-api/src/execution/executor.c:178-237 | Every step brings a query nearer to its answer, so every query ends |
| `DatabaseRuns.RunAgrees` | week8-team7-db-api/src/index/table_index.c:105-235 | Over any sequence of INSERTs (with or without failing registration), SELECTs and dropped indexes: index and file agree, rows are only added, in order and under consecutive ids, and rebuilding from scratch gives the same index |
| `LongRows.RunAgreesIff` | week8-team7-db-api/src/index/table_index.c:105-235 | Over any sequence of statements, index and file agree at the end if and only if no row of more than 4095 bytes has been registered since the index was last dropped |
| `LongRows.LongInsertHidesRow` | week8-team7-db-api/src/execution/executor.c:506-571 | After registering a row that is too long, the file has a row whose number the index does not know, and WHERE id finds nothing for it |
| `LongRows.LongInsertDisagrees` | week8-team7-db-api/src/execution/executor.c:683-740 | INSERT of 4096 letters into an empty table: the scan prints two rows, and WHERE id = 2 none |
| `DatabaseRuns.StepAgrees` | week8-team7-db-api/src/index/table_index.c:124-235 | One statement keeps the agreement and adds exactly the row it writes |
| `DatabaseRuns.InsertEffect` | week8-team7-db-api/src/execution/executor.c:178-237 | When an INSERT succeeds and what it leaves in the file; agreement is lost if and only if a registered row is longer than 4095 bytes |
| `DatabaseRuns.InsertAddsRow` | week8-team7-db-api/src/execution/executor.c:178-237 | A written row becomes the last data row at the reported offset, every earlier row stays what and where it was, and the table still parses |
| `DatabaseRuns.InsertReadBack` | week8-team7-db-api/src/execution/executor.c:99-237 | Selecting everything by the new id returns the normal form of the row that was built; what that row holds, column by column, is `Answers.InsertedRow` |
| `BPlusTree.BPlusTree.Insert` | week8-team7-db-api/src/index/bptree.c:333-376 | On heap nodes: a fresh key is added to the map and the tree stays valid, through leaf split, internal split and root growth; a duplicate key fails and changes no object |
| `BPlusTree.BPlusTree.Search` | week8-team7-db-api/src/index/bptree.c:385-407 | The search from node to node equals map lookup for every key, present or absent |
| `BPlusTree.BPlusTree.LeafChain` | week8-team7-db-api/src/index/bptree.c:207-219 | Following next from the leftmost leaf visits every leaf exactly once and lists the tree's pairs in strictly ascending key order |
| `BPlusTree.BPlusTree.Balanced` | week8-team7-db-api/src/index/bptree.c:360-375 | A tree with h > 0 internal levels holds at least 2^(h+1) pairs, all leaves being at the same depth |
| `BPlusTree.BPlusTree.constructor` | week8-team7-db-api/src/index/bptree.c:314-316 | A new tree is valid and empty |
| `BPlusTree.BPlusTree.Free` | week8-team7-db-api/src/index/bptree.c:319-322 | A freed tree is valid and empty |
| `BPlusTree.BPlusTree.InsertFirst` | week8-team7-db-api/src/index/bptree.c:337-347 | The first key makes a one-leaf tree holding just that pair |
| `BPlusTree.BPlusTree.GrowRoot` | week8-team7-db-api/src/index/bptree.c:360-375 | A split root gets a new root above its two halves and the tree stays valid |
| `BPlusTree.InsertIntoNode` | week8-team7-db-api/src/index/bptree.c:305-311 | The heap nodes after the insertion represent the specified tree or pair of halves, with the leaf chain threaded through and nothing else touched |
| `BPlusTree.InsertIntoLeaf` | week8-team7-db-api/src/index/bptree.c:173-225 | Leaf insertion with in-place shift and split represents the specified result |
| `BPlusTree.InsertIntoInternal` | week8-team7-db-api/src/index/bptree.c:237-297 | Internal insertion represents the specified result |
| `BPlusTree.AfterChild` | week8-team7-db-api/src/index/bptree.c:245-296 | What an internal node does with its child's result |
| `BPlusTree.SplitLeaf` | week8-team7-db-api/src/index/bptree.c:202-219 | The leaf split copies the upper half and links the new leaf into the chain |
| `BPlusTree.SplitInternal` | week8-team7-db-api/src/index/bptree.c:271-295 | The internal split moves the keys and children above the promoted key to a new node |
| `BPlusTree.EnterRight` | week8-team7-db-api/src/index/bptree.c:255-265 | Separator and right child are entered behind child i by shifting in place |
| `BPlusTree.InsertAt` | week8-team7-db-api/src/index/bptree.c:188-194 | Shifting in place inserts one element and keeps the others in order |
| `BPlusTree.FindChildIndex` | week8-team7-db-api/src/index/bptree.c:139-147 | The child whose interval covers the key |
| `BPlusTree.FindLeafIndex` | week8-team7-db-api/src/index/bptree.c:180-182 | The first position whose key is not smaller |
| `BPlusTree.SearchFrom` | week8-team7-db-api/src/index/bptree.c:385-407 | The descent loop finds what the tree value holds |
| `BPlusTree.ChainIsWalk` | week8-team7-db-api/src/index/bptree.c:207-219 | The chain of any subtree lists exactly its in-order walk and ends at the next subtree's first leaf |
| `BPlusTree.LeavesDistinct` | week8-team7-db-api/src/index/bptree.c:207-219 | No leaf occurs twice in the chain |
| `BPlusTreeModel.InsertCorrect` | week8-team7-db-api/src/index/bptree.c:173-311 | On tree values: insertion keeps sortedness, separators, sizes and height, gains exactly the new pair, and fails exactly for a present key |
| `BPlusTreeModel.InsertAtRoot` | week8-team7-db-api/src/index/bptree.c:333-376 | The whole insertion, root growth included, gives a valid tree whose map is the old map plus the pair |
| `BPlusTreeModel.FindIsLookup` | week8-team7-db-api/src/index/bptree.c:385-407 | Search by separators equals lookup in the map of all pairs |
| `BPlusTreeModel.EntriesBounds` | week8-team7-db-api/src/index/bptree.c:139-147 | The pairs of a valid subtree ascend and lie within its separators |
| `BPlusTreeModel.ManyEntries` | week8-team7-db-api/src/index/bptree.c:198-223 | Minimum fill: at least 2^(h+1) pairs |
| `TableIndex.Registry.GetNextId` | week8-team7-db-api/src/index/table_index.c:197-206 | Loads the index if needed and returns its next id; no other table's index changes |
| `TableIndex.Registry.RegisterRow` | week8-team7-db-api/src/index/table_index.c:209-235 | Registers the row, or fails on a duplicate key, a failed load or a failing allocation; no other table's index changes |
| `TableIndex.Registry.FindRow` | week8-team7-db-api/src/index/table_index.c:238-251 | The offset stored for an id after loading, or nothing |
| `TableIndex.Registry.Invalidate` | week8-team7-db-api/src/index/table_index.c:178-188 | Unloads this table's index and no other |
| `TableIndex.Registry.Reset` | week8-team7-db-api/src/index/table_index.c:162-175 | Forgets every index |
| `TableIndex.Registry.GetOrCreate` | week8-team7-db-api/src/index/table_index.c:58-95 | Finds or adds the entry without changing what any table's index holds |
| `TableIndex.Registry.Find` | week8-team7-db-api/src/index/table_index.c:44-55 | The first entry of that name |
| `TableIndex.Entry.EnsureLoaded` | week8-team7-db-api/src/index/table_index.c:124-159 | Keeps a loaded index; otherwise rebuilds it from the file, and leaves it unloaded and empty if that fails |
| `TableIndex.Entry.Rebuild` | week8-team7-db-api/src/index/table_index.c:137-155 | Rebuilding gives the index that maps i to the offset of the i-th non-blank data row |
| `TableIndex.Entry.RebuildRow` | week8-team7-db-api/src/index/table_index.c:105-116 | Each visited row gets the next id |
| `Database.RegisterAgrees` | week8-team7-db-api/src/index/table_index.c:209-235 | Registering the row just appended keeps index and file in agreement if and only if the row has at most 4095 bytes |
| `Database.EnsureLoadedAgrees` | week8-team7-db-api/src/index/table_index.c:124-159 | Loading keeps the file, keeps agreement, and succeeds on every table that parses |
| `Database.RegisteredRows` | week8-team7-db-api/src/index/table_index.c:209-235 | Adding one row to the index of n rows is the index of n+1 rows |
| `Executor.Engine.ExecuteStatement` | week8-team7-db-api/src/execution/executor.c:769-776 | The engine on heap objects does to all tables and answers exactly what the statement specifies |
| `Executor.Engine.ExecuteQuery` | week8-team7-db-api/src/execution/executor.c:769-776 | Reading and executing one SQL text on heap objects does to all tables and answers what one serial execution of the query does, for every query in bounds |
| `Executor.Engine.ExecuteInsert` | week8-team7-db-api/src/execution/executor.c:178-237 | Validates, takes the id, builds, appends, registers, and invalidates on failure, touching this table only |
| `Executor.Engine.ExecuteIndexSelect` | week8-team7-db-api/src/execution/executor.c:506-571 | Answers WHERE id through the index |
| `Executor.Engine.ExecuteSelect` | week8-team7-db-api/src/execution/executor.c:580-766 | Plans the columns and takes the index path or the scan |
| `Executor.ValidateInsertColumns` | week8-team7-db-api/src/execution/executor.c:53-89 | Reports the first complaint about the columns |
| `Executor.BuildInsertRow` | week8-team7-db-api/src/execution/executor.c:99-165 | The complete row in schema order, or the duplicate column error |
| `Executor.BuildSelectIndexes` | week8-team7-db-api/src/execution/executor.c:240-293 | For every list in bounds: the columns to print, or the first unknown name, with every write inside the array |
| `Executor.SelectNames` | week8-team7-db-api/src/execution/executor.c:259-289 | Fills the index array for a column list in bounds, stopping at the first unknown name |
| `Executor.ScanTable` | week8-team7-db-api/src/execution/executor.c:683-740 | The scan loop over the bytes of the file |
| `Database.IndexedEqualsScan` | week8-team7-db-api/src/execution/executor.c:506-571 | SELECT by id through the index returns exactly the rows that the full scan numbers with this id, for every table and every id, blank lines included |
| `Answers.SelectWhere` | week8-team7-db-api/src/execution/executor.c:322-329 | `WHERE column = value` lists, in file order and with the cells the column list stands for, exactly the rows whose field in the first column of that name equals the value, and changes nothing; said on names, fields and string equality |
| `Answers.SelectAll` | week8-team7-db-api/src/execution/executor.c:683-740 | SELECT without a condition lists all rows in file order, each cell being what its heading stands for |
| `Answers.SelectById` | week8-team7-db-api/src/execution/executor.c:506-571 | `WHERE id = k` lists row number k if there is one and nothing otherwise, with the cells the column list stands for |
| `Answers.SelectRefused` | week8-team7-db-api/src/execution/executor.c:278-282 | The first unknown name of a column list is the error |
| `Answers.ConditionRefused` | week8-team7-db-api/src/execution/executor.c:296-319 | An unknown column in the condition, or an id that is no integer, is the error |
| `Answers.ScanStops` | week8-team7-db-api/src/execution/executor.c:690-708 | A scan answers the error of the first row that does not parse or has the wrong number of fields, or that the file is empty |
| `Answers.LoadStops` | week8-team7-db-api/src/index/table_index.c:137-150 | The index is not loaded from an empty file nor past a row that does not parse; the error is that of the first such row |
| `Answers.SelectByIdStops` | week8-team7-db-api/src/execution/executor.c:517-546 | By id, a row with the wrong number of fields is an error, and so is a table whose index cannot be loaded |
| `Answers.InsertRefused` | week8-team7-db-api/src/execution/executor.c:53-89 | The first unacceptable column decides the error of an INSERT, and nothing changes |
| `Answers.InsertAnswer` | week8-team7-db-api/src/execution/executor.c:178-237 | With acceptable columns an INSERT succeeds unless a column is named twice or its registration fails |
| `Answers.InsertUnloadable` | week8-team7-db-api/src/execution/executor.c:202-206 | A table whose index cannot be loaded takes no rows |
| `Answers.OwnTableOnly` | week8-team7-db-api/src/execution/executor.c:769-776 | A statement on a missing table is refused; any other touches its own table only |
| `Answers.InsertedRow` | week8-team7-db-api/src/execution/executor.c:99-237 | The row selected by the new id has, under each column at its first position, the value given for it as CSV normalises it, and the empty string under every column that was not named |
| `Database.ScanMeans` | week8-team7-db-api/src/execution/executor.c:683-740 | The scan succeeds exactly when every row has the right width, and prints the matching rows and only those, in file order, each under its own number |
| `Database.HitsMean` | week8-team7-db-api/src/execution/executor.c:322-329 | A row number is among the hits exactly when the row exists and satisfies the WHERE clause |
| `Database.HitsAscend` | week8-team7-db-api/src/execution/executor.c:710-715 | Hits come in ascending order of row number |
| `Database.PlanMeans` | week8-team7-db-api/src/execution/executor.c:240-293 | A column list is accepted exactly when it is non-empty and every name is id or a schema column; the printed row holds, name by name, what the name stands for |
| `Database.FillIff` | week8-team7-db-api/src/execution/executor.c:259-289 | Filling the array of selected columns, one entry per schema column, never writes behind its end exactly when the list is no longer than the schema or has an unknown name among its first |columns|+1 names; the array then holds the plan |
| `Database.ValidateInsertMeans` | week8-team7-db-api/src/execution/executor.c:53-89 | An INSERT passes validation exactly when counts match, no column is id or unknown and no value holds a line break |
| `Database.IntRoundTrip` | week8-team7-db-api/src/common/util.c:286-307 | A printed int is read back by the strict integer parser as itself |
| `Database.ParseIntAccepts` | week8-team7-db-api/src/common/util.c:286-307 | Blanks, an optional sign and digits are read as their value if it is an int, and refused otherwise |
| `Database.ParseIntOnly` | week8-team7-db-api/src/common/util.c:286-307 | Every text that is accepted has this form |
| `Database.DecimalCanonical` | week8-team7-db-api/src/execution/executor.c:346-399 | Numbers are printed without leading zeros |
| `Database.RowAnswerIs` | week8-team7-db-api/src/execution/executor.c:548-571 | Reading at the offset of row k yields row k |
| `TableFile.AppendAddsRow` | week8-team7-db-api/src/storage/storage.c:219-311 | Appending a one-line row adds exactly that row at the reported offset if and only if it has at most 4095 bytes; a longer one is read as two rows or more |
| `TableFile.LongRow` | week8-team7-db-api/src/storage/storage.c:371-406 | A row longer than the read buffer splits |
| `TableFile.RowAtOffset` | week8-team7-db-api/src/storage/storage.c:314-350 | Reading at the offset of the i-th data row gives that row |
| `TableLines.DataRowsOfLines` | week8-team7-db-api/src/storage/storage.c:356-410 | The data rows of a file are the non-blank lines behind the header, in order, each at its byte offset, with LF or CR LF as line ends |
| `TableFile.File.AppendRow` | week8-team7-db-api/src/storage/storage.c:219-311 | Writes a missing line end and the row, and returns the row's offset |
| `TableFile.File.WriteFields` | week8-team7-db-api/src/storage/storage.c:280-304 | Writes the escaped fields joined by commas |
| `TableFile.File.ReadRow` | week8-team7-db-api/src/storage/storage.c:314-350 | Reads and parses the line at an offset |
| `CsvFormat.RowRoundTrip` | week8-team7-db-api/src/storage/storage.c:66-208 | Parsing the comma-joined escaped fields of any non-empty NUL-free row returns as many fields, each unchanged if it needed quotes and trimmed otherwise |
| `CsvFormat.NormalisedMeans` | week8-team7-db-api/src/storage/storage.c:168-208 | A value with a quote, a comma or a line break comes back as it was, any other without the white space around it |
| `CsvLines.LineRead` | week8-team7-db-api/src/storage/storage.c:66-165 | Every line of plain fields and quoted fields, with blanks behind the quotes, is read as their meanings |
| `CsvLines.TextAfterQuoteRefused` | week8-team7-db-api/src/storage/storage.c:149-153 | Anything but a blank or a comma behind a closing quote is refused |
| `CsvLines.UnclosedQuoteRefused` | week8-team7-db-api/src/storage/storage.c:101-104 | A quote that is not closed is refused |
| `Text.TrimMeans` | week8-team7-db-api/src/common/util.c:149-174 | Trimming takes away the white space at both ends and nothing else |
| `CsvFormat.ParseCsvLine` | week8-team7-db-api/src/storage/storage.c:66-165 | The character loop with its two flags equals the parser specification, errors included |
| `CsvFormat.EscapeCsvField` | week8-team7-db-api/src/storage/storage.c:168-208 | Escapes one field |
| `CsvFormat.FillQuoted` | week8-team7-db-api/src/storage/storage.c:193-207 | The buffer filled in place is the quoted text with doubled quotes and a NUL |
| `SqlLexer.LexSql` | week8-team7-db-api/src/sql/lexer.c:205-308 | The token loop equals the lexer specification and stays inside the text |
| `SqlLexer.LexWord` | week8-team7-db-api/src/sql/lexer.c:85-119 | Reads the longest word |
| `SqlLexer.LexString` | week8-team7-db-api/src/sql/lexer.c:122-202 | Reads a literal, undoubling quotes |
| `SqlLexer.AcceptedWhen` | week8-team7-db-api/src/sql/lexer.c:174-178 | A literal is accepted exactly when it is closed or the input ends in a quote |
| `SqlLexer.UnclosedAccepted` | week8-team7-db-api/src/sql/lexer.c:174-178 | An unterminated literal that the lexer takes for a string |
| `SqlLexer.UnclosedIsLast` | week8-team7-db-api/src/sql/lexer.c:174-178 | An accepted unclosed literal is the last token before the end token |
| `SqlLexer.LexRoundTrip` | week8-team7-db-api/src/sql/lexer.c:85-308 | Lexemes (words of letters, digits, underscores and non-ASCII bytes, quoted strings, and the six symbols) written with any white space are read back as themselves |
| `SqlLexer.WordBytes` | week8-team7-db-api/src/sql/lexer.c:23-32 | The bytes a word may hold are letters, digits, the underscore and bytes outside ASCII, and no others |
| `SqlLexer.TokensWellFormed` | week8-team7-db-api/src/sql/lexer.c:205-308 | Every token the lexer produces, but the end token, is a word, a number, a literal or one of the six symbols with its own text |
| `SqlLexer.LexEndsOnce` | week8-team7-db-api/src/sql/lexer.c:301-307 | The end token comes last and nowhere else |
| `SqlParser.ParseIff` | week8-team7-db-api/src/sql/parser.c:271-426 | The parser returns a statement exactly for the token sequences that spell it |
| `SqlParser.KeywordIs` | week8-team7-db-api/src/sql/parser.c:115-130 | A token is a keyword exactly when it is an unquoted word whose letters, upper-cased one by one, spell it |
| `SqlParser.ParserState.Parse` | week8-team7-db-api/src/sql/parser.c:373-426 | The parser methods compute the parser specification and never pass the end token |
| `SqlParser.ParserState.ParseInsert` | week8-team7-db-api/src/sql/parser.c:271-318 | Parses an INSERT in place |
| `SqlParser.ParserState.ParseSelect` | week8-team7-db-api/src/sql/parser.c:321-370 | Parses a SELECT in place |
| `SqlParser.ParserState.ParseItems` | week8-team7-db-api/src/sql/parser.c:156-229 | The comma loop of both list parsers |
| `Sql.SqlRoundTrip` | week8-team7-db-api/src/sql/parser.c:373-426 | Any spelling of a statement, written with any white space, is lexed and parsed back as that statement |
| `Sql.WrittenRoundTrip` | week8-team7-db-api/src/sql/parser.c:373-426 | Every INSERT and SELECT with proper names, written with the keywords in any mixture of cases (each letter, upper-cased, spelling the keyword), with each value quoted or, if it is a word or a number, plain, and with any white space, is read back as itself |
| `Sql.OtherWordRefused` | week8-team7-db-api/src/sql/parser.c:384-409 | A text whose first word does not spell INSERT or SELECT in any case is not a statement |
| `SqlTexts.ParseSqlIff` | week8-team7-db-api/src/sql/parser.c:373-426 | A text is accepted as a statement exactly when its tokens are that statement written out, with the keywords in any case and each value quoted or plain, closed by a semicolon, and nothing else |
| `Sql.ReadStatement` | week8-team7-db-api/src/sql/parser.c:373-426 | Lexer and parser methods together |
| `Sql.AcceptedTextsClosed` | week8-team7-db-api/src/sql/lexer.c:174-178 | In every text accepted as a statement every literal is closed, so the leniency of the lexer is harmless |
| `LockClassifier.ClassifierAgrees` | SERVER-CONCURRENCY/src/lock_manager.c:213-240 | For every text the lexer and parser accept, the classifier says READ for SELECT and WRITE for INSERT |
| `LockClassifier.NeverUnlocked` | SERVER-CONCURRENCY/src/lock_manager.c:213-240 | No text is classified NONE |
| `LockClassifier.LockModeFromSql` | SERVER-CONCURRENCY/src/lock_manager.c:213-240 | The keyword loop computes the classification |
| `LockClassifier.SkipLeadingNoise` | SERVER-CONCURRENCY/src/lock_manager.c:33-71 | The comment-skipping loop ends and stops where the specification does |
| `LockClassifier.BlankSkipped` | SERVER-CONCURRENCY/src/lock_manager.c:43-46 | White space in front of a text does not change how it is locked |
| `LockClassifier.LineCommentSkipped` | SERVER-CONCURRENCY/src/lock_manager.c:48-55 | Nor does a line comment |
| `LockClassifier.BlockCommentSkipped` | SERVER-CONCURRENCY/src/lock_manager.c:57-67 | Nor does a block comment |
| `LockClassifier.FirstWordDecides` | SERVER-CONCURRENCY/src/lock_manager.c:219-239 | The first word decides: SELECT, in any case, is READ and every other word WRITE |
| `LockClassifier.NoWordWrites` | SERVER-CONCURRENCY/src/lock_manager.c:219-239 | A text that starts with no word is WRITE |
| `LockManager.Exclusion` | SERVER-CONCURRENCY/src/lock_manager.c:131-211 | In every reachable state an active writer excludes every other holder, and under SERIAL_ALL at most one thread holds the lock |
| `LockManager.StepInv` | SERVER-CONCURRENCY/src/lock_manager.c:131-211 | Every step, spurious wake-ups included, keeps: the counters count the threads, a writer is alone, a free lock with waiting writers has an awake one, and no reader sleeps when readers may enter |
| `LockManager.RunInv` | SERVER-CONCURRENCY/src/lock_manager.c:131-211 | The invariant holds after every sequence of steps |
| `LockManager.SomebodyCanProceed` | SERVER-CONCURRENCY/src/lock_manager.c:146-208 | Whenever nobody holds the lock and somebody waits, some waiting thread's next step takes it |
| `LockManager.EntersIff` | SERVER-CONCURRENCY/src/lock_manager.c:131-167 | Mode NONE always enters; a reader under READERS_PARALLEL enters exactly when no writer is active or waiting; everybody else exactly when nobody holds the lock |
| `LockManager.LeavesFree` | SERVER-CONCURRENCY/src/lock_manager.c:169-211 | Giving back the lock removes one reader or the writer and leaves the waiting writers counted |
| `LockManager.ReadersShare` | SERVER-CONCURRENCY/src/lock_manager.c:145-155 | A reachable state in which two readers hold the lock |
| `LockManager.WriterPreference` | SERVER-CONCURRENCY/src/lock_manager.c:146-193 | While a writer waits and none enters, no reader enters; holders only drain, and the number of releases is exactly the number of holders that left |
| `LockManager.Manager.Acquire` | SERVER-CONCURRENCY/src/lock_manager.c:131-167 | The section that announces a writer and checks the condition |
| `LockManager.Manager.Check` | SERVER-CONCURRENCY/src/lock_manager.c:146-164 | One check of the wait condition and the entry |
| `LockManager.Manager.Release` | SERVER-CONCURRENCY/src/lock_manager.c:169-211 | The release section and whom it wakes |
| `JobQueue.Ring.Push` | SERVER-CONCURRENCY/src/job_queue.c:66-112 | The ring buffer represents the bounded FIFO after push and try_push: full exactly when open, not waiting and at capacity; waiting exactly when open, blocking and at capacity; otherwise, if open, the job is behind all others |
| `JobQueue.Ring.Pop` | SERVER-CONCURRENCY/src/job_queue.c:114-133 | The ring buffer represents the bounded FIFO after pop: the oldest job leaves; an empty queue makes the caller wait, or end if it is closed |
| `JobQueue.Ring.PopFront` | SERVER-CONCURRENCY/src/job_queue.c:10-14 | The oldest job leaves |
| `JobQueue.Ring.CancelPending` | SERVER-CONCURRENCY/src/job_queue.c:161-183 | The loop takes out all queued jobs, oldest first |
| `JobQueue.Ring.Close` | SERVER-CONCURRENCY/src/job_queue.c:54-64 | Closing keeps the jobs |
| `JobQueue.Ring.TailPosition` | SERVER-CONCURRENCY/src/job_queue.c:81-83 | tail = (head + size) mod capacity |
| `ThreadPool.JobsConserved` | SERVER-CONCURRENCY/src/thread_pool.c:24-45 | In every reachable state each job is in exactly one of queued, held by one thread, finished; it is finished at most once, and a finished client has been closed once and freed once, whether served, cancelled or rejected |
| `ThreadPool.ShutdownFinishesAll` | SERVER-CONCURRENCY/src/thread_pool.c:153-186 | When a call of shutdown that began before any other has returned, the queue is empty and every accepted job has been finished exactly once, served or cancelled, its client closed once and freed once; if the call was to drain, none was cancelled |
| `ThreadPool.ReturnsEarlyIff` | SERVER-CONCURRENCY/src/thread_pool.c:163-167 | However things go on, a call of shutdown returns early exactly when shutdown had been started before it |
| `ThreadPool.EarlyReturn` | SERVER-CONCURRENCY/src/thread_pool.c:163-167 | A sequence of steps in which a second call returns while an accepted job is still queued and nothing is finished |
| `ThreadPool.BoundedShutdown` | SERVER-CONCURRENCY/src/thread_pool.c:173-186 | Once the queue is closed, workers and shutdown take only boundedly many further steps, whatever submitters do |
| `ThreadPool.ShutdownNeverStuck` | SERVER-CONCURRENCY/src/thread_pool.c:173-186 | Until shutdown has returned, a worker or the shutdown itself can take a step |
| `ThreadPool.QueuedJobMoves` | SERVER-CONCURRENCY/src/job_queue.c:114-133 | In every reachable state with a job queued, open or closed, some worker or the shutdown can take a step |
| `ThreadPool.JobWillBeTaken` | SERVER-CONCURRENCY/src/job_queue.c:114-133 | With a job queued and a worker asleep, some woken worker's next step takes the oldest job |
| `ThreadPool.SlotWillBeUsed` | SERVER-CONCURRENCY/src/job_queue.c:66-87 | With a free slot and a submitter asleep, some woken submitter's next step enqueues its job |
| `ThreadPool.PushRefusedIff` | SERVER-CONCURRENCY/src/thread_pool.c:118-138 | In every reachable state a submitter at the queue is refused exactly when the queue is closed, or full and the submitter does not wait; with a free slot its job is enqueued and accepted |
| `ThreadPool.OfferOutcome` | SERVER-CONCURRENCY/src/thread_pool.c:122-124 | A job is refused without looking at the queue exactly when shutdown has begun |
| `ThreadPool.PopOutcome` | SERVER-CONCURRENCY/src/thread_pool.c:24-32 | A worker takes the oldest job; without one it sleeps, or ends if the queue is closed |
| `ThreadPool.ServeOutcome` | SERVER-CONCURRENCY/src/thread_pool.c:34-44 | A worker serves its job and reports what serving returned |
| `ThreadPool.ShutdownOutcome` | SERVER-CONCURRENCY/src/thread_pool.c:173-178 | A cancelling shutdown takes out the queued jobs one by one, oldest first, and finishes each as cancelled; a draining one goes straight to joining |
| `ThreadPool.StepWakes` | SERVER-CONCURRENCY/src/job_queue.c:54-133 | Every step keeps: a sleeping worker implies at least as many woken workers as queued jobs; a sleeping submitter implies woken submitters for all free slots |
| `ThreadPool.ClosedAwake` | SERVER-CONCURRENCY/src/job_queue.c:54-64 | Once the queue is closed nobody is asleep |
| `ThreadPool.StepPlaces` | SERVER-CONCURRENCY/src/thread_pool.c:24-45 | Every step moves jobs between places; only an arriving client adds one |
| `ThreadPool.StepClients` | SERVER-RUNTIME/src/db_server_runtime.c:312-450 | Every step keeps each client's close and free counts as its place demands |
| `ThreadPool.StepShutdown` | SERVER-CONCURRENCY/src/thread_pool.c:163-186 | At most one call of shutdown does the work, and it does it in order |
| `ThreadPool.RunInv` | SERVER-CONCURRENCY/src/thread_pool.c:13-186 | The invariant holds after every sequence of steps |
| `HttpReceive.ChunkingIndependence` | SERVER-HTTP/src/http_server.c:579-685 | For every limit of at least 4096 bytes the outcome of the receive loop is a function of the byte stream alone, whatever recv delivers and however often it is interrupted |
| `HttpReceive.IndependentIff` | SERVER-HTTP/src/http_server.c:369-401 | The outcome is independent of the pieces if and only if the limit is at least 4096 bytes or below 16 bytes |
| `HttpReceive.MiddleDepends` | SERVER-HTTP/src/http_server.c:648-668 | For every limit in between, a stream that is answered if cut one way and refused if cut another |
| `HttpReceive.ReceivedIff` | SERVER-HTTP/src/http_server.c:579-685 | A request is received exactly when the announced bytes are all there and within the limit, and then with exactly the declared body |
| `HttpReceive.OutcomeIff` | SERVER-HTTP/src/http_server.c:579-685 | For limits of at least 4096: 413 exactly when no head ends within the limit and the stream fills it, or the head announces more than the limit; 400 exactly when a head within the limit is malformed or the stream ends early; nothing at all for an empty stream |
| `HttpMessages.BodyReceived` | SERVER-HTTP/src/http_server.c:579-685 | A request with a Content-Length line in any case, within the limit, is received with its body, however it is cut and whatever follows |
| `HttpReceive.HandleClient` | SERVER-HTTP/src/http_server.c:579-685 | The loop on a growing array equals the receive specification |
| `HttpReceive.Grow` | SERVER-HTTP/src/http_server.c:369-401 | Reallocation to the doubled capacity keeps the bytes, and fails exactly when there is no room under the limit |
| `HttpReceive.DoubledMeans` | SERVER-HTTP/src/http_server.c:375-390 | Growth never passes the limit, succeeds when there is room, and stops below twice what is needed |
| `HttpProtocol.CompleteParses` | SERVER-HTTP/src/http_protocol.c:524-631 | When the probe says complete, parsing the announced prefix succeeds with exactly the declared body |
| `HttpProtocol.RequestProbe` | SERVER-HTTP/src/http_protocol.c:524-573 | The probe, with its size and overflow checks |
| `HttpProtocol.ParseRequest` | SERVER-HTTP/src/http_protocol.c:575-631 | The request parser |
| `HttpProtocol.ExtractHead` | SERVER-HTTP/src/http_protocol.c:330-363 | Request line and header fields of a head |
| `HttpProtocol.HeadPrefix` | SERVER-HTTP/src/http_protocol.c:330-363 | A head is read from its own bytes: what follows it does not matter |
| `HttpProtocol.RequestWritten` | SERVER-HTTP/src/http_protocol.c:575-631 | A request of proper lines followed by the declared bytes is parsed into exactly what was written, and is rejected exactly when its request line or header lines are |
| `HttpMessages.PlainRequest` | SERVER-HTTP/src/http_protocol.c:575-631 | line CR LF name `: ` decimal length CR LF CR LF body is parsed with exactly that body, for every acceptable method, path and version and every spelling of Content-Length in any case |
| `HttpMessages.BodyRead` | SERVER-HTTP/src/http_protocol.c:575-631 | The same with any white space around name and value, and with more bytes behind the body |
| `HttpMessages.FieldsKept` | SERVER-HTTP/src/http_protocol.c:284-318 | The values of Content-Type and X-Debug-Sleep-Ms are kept, the names in any case |
| `HttpMessages.TransferEncodingRefused` | SERVER-HTTP/src/http_protocol.c:319-322 | A Transfer-Encoding line anywhere, in any case, refuses the request |
| `HttpMessages.NoBody` | SERVER-HTTP/src/http_protocol.c:606-628 | Without a Content-Length line there is no body |
| `HttpMessages.HeaderLine` | SERVER-HTTP/src/http_protocol.c:249-324 | What each header line does, by its name as it is written, its value and the fields seen so far |
| `HttpMessages.FieldNames` | SERVER-HTTP/src/http_protocol.c:272-322 | The four names the server looks at, upper-cased letter by letter |
| `HttpMessages.NumberIs` | SERVER-HTTP/src/http_protocol.c:193-225 | A declared length is a non-empty string of decimal digits whose value is at most 2^64 - 1 |
| `HttpProtocol.RequestLineIff` | SERVER-HTTP/src/http_protocol.c:114-191 | A request line is accepted exactly when it is an acceptable method, path and version joined by single spaces |
| `HttpProtocol.AddLinesIff` | SERVER-HTTP/src/http_protocol.c:227-328 | Header lines are accepted exactly when each is acceptable and no restricted field is repeated; the declared length is that of the one Content-Length line |
| `HttpProtocol.ParseHeaders` | SERVER-HTTP/src/http_protocol.c:227-328 | The header loop with its flags |
| `HttpProtocol.ParseHeaderLine` | SERVER-HTTP/src/http_protocol.c:249-324 | One header line |
| `HttpProtocol.ParseContentLength` | SERVER-HTTP/src/http_protocol.c:193-225 | Accepts exactly the non-empty digit strings whose value is at most SIZE_MAX, and returns that value: the accumulator never wraps |
| `HttpProtocol.FindHeaderEnd` | SERVER-HTTP/src/http_protocol.c:14-34 | The first empty line |
| `HttpProtocol.FindCrlf` | SERVER-HTTP/src/http_protocol.c:36-50 | The first CR LF |
| `HttpProtocol.TrimSpan` | SERVER-HTTP/src/http_protocol.c:74-82 | Trims white space at both ends |

## Left out

- Sockets, accept, signals, sleeping, sending and logging; of these only the fact that handling a client closes its descriptor once is kept.
- JSON responses, routing, reason phrases and the ASCII rendering of result tables: formatting.
- The wording of error messages; errors are datatype values, and in HTTP parsing a rejection is `None`.
- `storage/schema.c`: the search for schema files; a catalog of valid schemas (some columns, none named id) is given, and one data directory per registry lifetime is assumed.
- Configuration, command line, REPL, benchmarks, scripts and mock servers; `SERVER-CORE` capturing output in a temporary file.
- Allocation failures, except a failing index registration, which is an arbitrary input followed by invalidation; I/O errors and `recv` errors other than an interruption.
- READERS_PARALLEL together with the engine: an id SELECT may then rebuild the index under a read lock only. The policy is covered by the lock model alone.
- Row counts of INT_MAX and above, where the id would overflow; ids are unbounded integers.
- What happens after a write behind the array of selected columns (executor.c:606): the model marks such a query as corrupted and says no more.
- Executor.Engine.ExecuteSelect: requires a column list in bounds, the exact condition under which the code stays inside its array.
- Executor.Engine.ExecuteStatement: the same requirement.
- Executor.Engine.ExecuteQuery: the same requirement, and a text without NUL.
- Executor.BuildSelectIndexes: the same requirement.
- Executor.SelectNames: the same requirement.
- Serialisation.Serialisable: every query asked is in bounds.
- Serialisation.ConcurrentInserts: every query asked is in bounds, and rows fit the readers' buffer.
- EngineSteps.FinishIsExecute: the query is in bounds; loading the index and appending a row are one step each, and a scan is one step per line.
- Database.IndexedEqualsScan: requires at most INT_MAX rows, since the key is parsed as an int.
- Sql.ReadStatement: requires a text without NUL, which is what a C string is.
- The positions the lexer records in tokens and in errors: they only reach messages.
- The growth of token and row arrays and of the registry array by reallocation: sequences are used instead.
