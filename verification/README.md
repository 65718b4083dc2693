# RSQLCipher: a verified model

RSQLCipher connects R to SQLite databases, encrypted or not. Between the two lie a handful of algorithms that
carry real state, and this Dafny project models them and proves what they are for:

* **Columns.** A stream of dynamically typed SQLite cells becomes one typed R vector per result column. The code
  keeps a list of chunks whose capacities double, whose type may still be unknown, and which are read back at the
  end at the column's final type. `ColumnModel` says what a finished column must be in one pass, without chunks
  and capacities (`OnePass`); `ColumnTheorems` proves that the chunked column is that; `ColumnStorage`, `Column`
  and `DataFrame` are the imperative classes, proved against it. `ColumnCapacity` bounds the number of chunks,
  `ColumnInference` gives the final type, the fate of integer cells and the mixed-type warning in closed form,
  `ColumnCells` what every cell becomes, by storage class,
  `ColumnBatches` compares fetching in batches with fetching at once as to types, `ColumnValues` as to values.
* **The cursor.** `Statement`, `CursorModel`, `Cursor` and `CursorRuns` model a prepared statement that is run once
  per parameter row, looks one row ahead, and hands out rows in batches of any sizes. A statement is a function
  from bound parameters to a finite sequence of rows.
* **Scanners.** `Affinity` is the rolling-hash scan of declared types, `LineModel` and `ImportFile` are the importer
  for delimited files, down to the growing line buffer and the fields cut in place, and `Identifiers` is the pair
  of quoting and unquoting identifiers.
* **Savepoints.** `Transactions` models one connection as a stack of named snapshots, after SQLite's documentation of
  SAVEPOINT, and `WriteTable` runs `dbWriteTable` (data frame and file) and `dbAppendTable` over it, where any
  step may fail and the `on.exit` handlers are part of the program.

Cells are `Null`, `Integer`, `Float`, `Text` or `Blob`. SQLite's conversions between them are arbitrary total
functions (`ColumnSource.Coercions`), so every result holds whatever they do. An element of an R vector is a `Slot`
that remembers what it was written as: reading a 64-bit integer as a double, which the code could do because both
live in a REALSXP, would be a failed proof.

## Where the code does not do what one would expect

These are theorems about the code as it is.

* An integer is lost in a numeric column exactly when it is -2^31 and arrived while the column was INT, although
  such a value "does not need 64 bits", or when it is -2^63 in an INT64 column
  (`ColumnInference.IntegerCellIsNa`).
* Batches matter. A first batch of NULLs only, and likewise a look at a first row that is NULL, pins the column to
  its declared type. `ColumnBatches.KeepsTypesIsExact` and `PeekIsExact` give the exact conditions under which
  every value still arrives at the type it would have had otherwise, `ColumnValues.KeepsValuesIsExact` and
  `PeekKeepsValuesIsExact` those under which it still has the same value; the only addition is a column declared
  REAL that starts with integers and becomes REAL anyway. A column description asked for before the first bind
  pins all open columns (`Cursor.SqliteResult.GetColumnInfo`).
* An import ends, without an error, at the first empty line, even among the lines to be skipped.
  `LineModel.ImportVerdict` says what is inserted and reported for every file of lines that are clean or empty,
  `LineModel.ImportIsComplete` exactly when nothing is lost. A last line that lacks its terminator is read from a
  buffer that nothing terminates, and with a terminator of several bytes the look back can leave the buffer; both
  are outcomes of `LineModel.NextLine` (`Unterminated`, `OutOfBounds`), and an import that meets one has status
  `Undefined`. Where a plain `char` is signed, a terminator whose last byte is 128 or more is never found
  (`LineModel.Recognized`); everything is proved for both kinds of platform.
* A field that merely begins with `\N` is imported as NULL. `LineModel.ImportRoundTripIsExact`: a table that is
  written and imported comes back as its text if and only if no line is empty, every row is a leftmost split, and
  no field begins so.
* `dbAppendTable` disarms its handler before the savepoint is released. If the release fails, its savepoint always
  stays on the stack, with all rows in it; and if only one step fails, that is the only step that can leave it
  open (`WriteTable.Connection.DbAppendTable`). `dbWriteTable` is not disturbed by that: the names differ, so its
  own savepoint is the one found, and a single failing step, whichever it is, leaves database and stack as they
  were (`WriteTable.Connection.DbWriteTable`).
* The empty string has a quoted form that cannot be unquoted (`Identifiers.QuoteRoundTrip`).

## Model

| member | source | states |
|---|---|---|
| `Affinity.AffinityType` | src/affinity.c:62-102 | For every declared type, and for none, the one-pass scan yields the affinity of the substring table: INT first, then CHAR, CLOB, TEXT, then BLOB, then REAL, FLOA, DOUB, else NUMERIC, in any letter case |
| `Affinity.Compare` | src/affinity.c:71-96 | One chain of comparisons updates the affinity by priority and stops exactly at INT |
| `Affinity.HashIsWindow` | src/affinity.c:69 | The 32-bit rolling hash is at any moment the last four lower-cased bytes and nothing else |
| `Affinity.WindowIsWord` | src/affinity.c:71-92 | Comparing the hash with a packed word finds exactly the occurrences that end here, also near the start |
| `Affinity.RuleStep` | src/affinity.c:71-92 | Keeping one affinity with priorities is as good as remembering all substrings seen |
| `Affinity.ScannedMeetsRule` | src/affinity.c:41-60 | After any prefix the affinity held is the table's for that prefix |
| `Affinity.RuleIsTable` | src/affinity.c:41-60 | The affinity of a declaration, spelled out in its own bytes: int, char, clob, text, blob, real, floa, doub in any mixture of cases, in this order of priority |
| `ColumnSource.Low32` | src/SqliteColumnDataSource.cpp:67-69 | The 32-bit value read from a 64-bit integer is congruent to it modulo 2^32 and equal to it when it fits |
| `ColumnSource.DatatypeFromDecltype` | src/SqliteColumnDataSource.cpp:182-215 | The method yields the declared type whose table the next row spells out; no declaration reads as BOOL |
| `ColumnSource.DeclaredTypeTable` | src/SqliteColumnDataSource.cpp:182-215 | Under extended types datetime, timestamp, date and time, in any case, have types of their own; else int gives INT, then char, clob or text STRING, then blob BLOB, and the rest REAL |
| `ColumnTheorems.AppendCellMeaning` | src/DbColumnStorage.cpp:22-105 | Whatever spills happen, the cell and nothing else ends up at the end of the old chunk or in a chunk of its own; dropped spillovers hold nothing; the recursion ends |
| `ColumnTheorems.TakenExactly` | src/DbColumnStorage.cpp:76-96 | A chunk takes the cell itself if and only if it is NULL, or the chunk has a type and room and is not an INT chunk that meets an INT64 or REAL cell |
| `ColumnTheorems.RunInvariant` | src/DbColumn.cpp:22-29 | In every reachable column all chunks are valid (rows past capacity are NULL), they count every row once, the last has the type in force, and types form a chain |
| `ColumnTheorems.AppendKeepsChain` | src/DbColumnStorage.cpp:86-105 | Chunk types go from unknown to one type, or from INT to only INT64 or only REAL |
| `ColumnTheorems.ChunksHoldArrivals` | src/DbColumn.cpp:22-29 | For every cell sequence, initial type and row limit the chunks, read in order, hold each cell under the type in force when it arrived |
| `ColumnTheorems.AppendAddsRow` | src/DbColumnStorage.cpp:76-105 | Appending a cell adds one row and disturbs no earlier one |
| `ColumnTheorems.ArrivalAt` | src/DbColumnStorage.cpp:86-96 | The type a cell arrives at depends on the cells up to it only |
| `ColumnTheorems.ChunksFitFinalType` | src/DbColumnStorage.cpp:266-338 | Every chunk can be read back at the final type, and no column has both INT64 and REAL chunks |
| `ColumnCapacity.SpillCapacity` | src/DbColumnStorage.cpp:98-105 | The exact capacity of the chunk a spill ends in: double and at least 100 without a limit, the rows to come with one, and what a dropped intermediate spillover adds |
| `ColumnCapacity.FirstChunk` | src/DbColumn.cpp:14-16 | The first chunk has no capacity if the type is open, else room for 100 rows, or one if there is a limit |
| `ColumnCapacity.RunDoubles` | src/DbColumnStorage.cpp:66-74 | Without a limit, known chunks hold at least 100 rows, capacities double, and a chunk is only left if unknown, filled or too narrow |
| `ColumnCapacity.FilledNeedRows` | src/DbColumnStorage.cpp:66-74 | f filled chunks need at least 100 * (2^f - 1) rows |
| `ColumnCapacity.UnfilledAreFew` | src/DbColumnStorage.cpp:86-105 | Among the chunks left behind, at most one unknown and one widened chunk are not filled |
| `ColumnCapacity.UnlimitedChunkCount` | src/DbColumnStorage.cpp:66-105 | Without a limit there are at most f + 3 chunks, f of them filled, and the row bound above holds |
| `ColumnCapacity.AppendIsRoomy` | src/DbColumnStorage.cpp:98-105 | A step of a limited fetch keeps room, in every chunk after the first, for all rows to come |
| `ColumnCapacity.LimitedChunkCount` | src/DbDataFrame.cpp:32-39 | With a positive limit at most three chunks exist and none after the first runs out before the batch ends |
| `ColumnInference.TypeIsInferred` | src/DbColumnStorage.cpp:86-96 | A column's type is the initial one, else that of the first value, with INT replaced by the first INT64 or REAL seen |
| `ColumnInference.NullColumnType` | src/DbColumnStorage.cpp:31-34 | A column of NULLs keeps a type it began with, else has the type of its declaration |
| `ColumnInference.IntegerCellArrives` | src/DbColumnStorage.cpp:280-317 | Row k of a numeric column has the integer's own value, except that -2^31 that arrived as INT becomes NA when widened |
| `ColumnInference.IntegerCellIsNa` | src/SqliteColumnDataSource.cpp:225-227 | Exactly which integers read as NA |
| `ColumnInference.SeenIsExact` | src/DbColumn.cpp:22-25 | The types seen, UNKNOWN apart, are those of the non-NULL cells |
| `ColumnInference.InOrder` | src/DbColumn.cpp:65-70 | The listing has every type of the set and no other |
| `ColumnInference.InOrderAscends` | src/DbColumn.cpp:65-70 | It lists them in the order of the enumeration, each once |
| `ColumnInference.WarningIsExact` | src/DbColumn.cpp:35-73 | A type is listed in the warning if and only if some non-NULL cell has it and it is neither the final type nor INT in an INT64 or REAL column |
| `ColumnInference.AltColumnNeverWarns` | src/SqliteColumnDataSource.cpp:18-25 | A date, datetime or time column ends with the declared type and never warns |
| `ColumnCells.KnownTypeStays` | src/DbColumnStorage.cpp:86-96 | A column of a known type other than INT keeps it |
| `ColumnCells.FirstValueDecidesType` | src/SqliteColumnDataSource.cpp:27-52 | An open column whose first value is text is STRING, a blob BLOB, a float REAL, an integer beyond 32 bits INT64 |
| `ColumnCells.IntegerColumnType` | src/SqliteColumnDataSource.cpp:225-227 | A column that starts INT stays so unless a float or an integer outside -2^31 to 2^31 - 1 comes, and the first of these decides between REAL and INT64 |
| `ColumnCells.NullCellArrives` | src/DbColumnStorage.cpp:231-264 | NULL is the NA of the final type, bit pattern by bit pattern |
| `ColumnCells.CellInStringColumn` | src/SqliteColumnDataSource.cpp:79-82 | In a STRING column text without NUL arrives as it is, text with a NUL up to it, and any other value as SQLite writes it |
| `ColumnCells.CellInBlobColumn` | src/SqliteColumnDataSource.cpp:84-92 | In a BLOB column a blob arrives byte by byte, any other value as SQLite converts it |
| `ColumnCells.CellAtReal` | src/SqliteColumnDataSource.cpp:75-77 | A cell that arrives at REAL is its float, its integer as a double, or the conversion |
| `ColumnCells.CellAtInt64` | src/SqliteColumnDataSource.cpp:71-73 | A cell that arrives at INT64 is its integer or the conversion |
| `ColumnCells.CellAtInt` | src/SqliteColumnDataSource.cpp:67-69 | A cell that arrives at INT is converted to 32 bits then and widened later, with -2^31 as NA; no wide integer is among them |
| `ColumnCells.FloatInRealColumn` | src/DbColumnStorage.cpp:121-123 | A float arrives as it is in every REAL column, whatever preceded it |
| `ColumnCells.OwnKindSurvives` | src/DbColumnStorage.cpp:107-152 | In an open column of one kind, text without NUL, floats and blobs come back as they are |
| `ColumnCells.TemporalColumnType` | src/SqliteColumnDataSource.cpp:18-25 | A column declared as a date, datetime or time has that type whatever its cells are |
| `ColumnCells.TemporalCellArrives` | src/SqliteColumnDataSource.cpp:94-179 | Its text is parsed, its numbers are taken as they are, its blobs are NA |
| `ColumnCells.TemporalDeclarations` | src/SqliteColumnDataSource.cpp:186-193 | Exactly which declarations make a column such |
| `ColumnBatches.TypeAfterConcat` | src/SqliteResultImpl.cpp:304-323 | Types compose over a split of the rows |
| `ColumnBatches.ArrivalsConcat` | src/SqliteResultImpl.cpp:304-323 | So do arrivals |
| `ColumnBatches.BatchIndependence` | src/SqliteResultImpl.cpp:304-323 | Under a condition that can be checked, every row of a batched fetch, widened to the final type, is the row of a single fetch, for any batch sizes |
| `ColumnBatches.BatchesKeepNulls` | src/DbColumnStorage.cpp:76-80 | NULL positions never depend on the batches, whatever the types |
| `ColumnBatches.KeepsTypesIsExact` | src/DbColumn.cpp:10-17 | That condition holds if and only if every value arrives at the same type in batches and at once |
| `ColumnBatches.UniformBatches` | src/DbColumnStorage.cpp:31-34 | A column whose values share one type, also declared or not declared at all, has that type in every batch that holds a value |
| `ColumnBatches.TypesOnlyGrow` | src/SqliteResultImpl.cpp:322 | From batch to batch types go from unknown to known or from INT to INT64 or REAL |
| `ColumnBatches.KnownTypeChangesOnce` | src/SqliteResultImpl.cpp:322 | Over any run of batches a known type changes at most once |
| `ColumnBatches.PeekTwice` | src/SqliteResultImpl.cpp:353-361 | A second look at the same row changes no type |
| `ColumnBatches.PeekIsExact` | src/SqliteResultImpl.cpp:353-361 | A look ahead leaves all arrivals alone if and only if the type was known, the first row is not NULL, or the declaration fits |
| `ColumnBatches.PeekKnown` | src/SqliteResultImpl.cpp:353-361 | After a look at a value the column evolves as without it |
| `ColumnValues.KeepsValuesIsExact` | src/DbColumn.cpp:10-17 | Every value is delivered as by a single fetch if and only if the types are kept, or a column declared REAL starts with an integer, becomes REAL anyway, and its values until then read alike |
| `ColumnValues.PeekKeepsValuesIsExact` | src/SqliteResultImpl.cpp:353-361 | The same equivalence for a look ahead |
| `ColumnValues.FirstValueDecides` | src/DbColumnStorage.cpp:31-34 | After NULLs have pinned a declaration that does not fit, the first value can only survive in a column declared REAL that becomes REAL |
| `ColumnValues.IntegerFirst` | src/DbColumnStorage.cpp:86-96 | A column that starts with an integer is INT up to the first wide cell and has its type from there |
| `ColumnStorage.DbColumnStorage.constructor` | src/DbColumnStorage.cpp:8-17 | An empty chunk; without a type its capacity is 0 |
| `ColumnStorage.DbColumnStorage.AppendCol` | src/DbColumnStorage.cpp:22-25 | The chunk returned stands for the specified one; it is this chunk, or a new one while this is untouched |
| `ColumnStorage.DbColumnStorage.AppendNull` | src/DbColumnStorage.cpp:76-80 | One row more, stored only below the capacity |
| `ColumnStorage.DbColumnStorage.AppendDataCell` | src/DbColumnStorage.cpp:86-96 | Stores a value or spills, as specified |
| `ColumnStorage.DbColumnStorage.AppendToNew` | src/DbColumnStorage.cpp:98-105 | The spillover, or the wider one after it, takes the cell |
| `ColumnStorage.DbColumnStorage.FetchValue` | src/DbColumnStorage.cpp:107-152 | Only slot i changes, to the cell converted at the chunk's type; `ColumnCells` says to what |
| `ColumnStorage.DbColumnStorage.CopyTo` | src/DbColumnStorage.cpp:47-60 | Copies the stored rows at the final type and NA for the counted ones past capacity, and touches nothing else |
| `ColumnStorage.DbColumnStorage.CopyValue` | src/DbColumnStorage.cpp:266-338 | Reads the element as what it was stored as and writes the specified conversion; the error default is unreachable |
| `ColumnStorage.FillDefaultValue` | src/DbColumnStorage.cpp:231-264 | Writes the NA of the type at one index |
| `Column.DbColumn.constructor` | src/DbColumn.cpp:10-17 | A column without rows; BOOL reads as unknown |
| `Column.DbColumn.SetColValue` | src/DbColumn.cpp:22-29 | The column now stands for one more cell, in a valid chunk list |
| `Column.DbColumn.AppendToLast` | src/DbColumn.cpp:27-28 | Extends the list exactly when the last chunk did not take the cell |
| `Column.DbColumn.Finalize` | src/DbColumn.cpp:31-33 | Sets the row count only |
| `Column.DbColumn.GetType` | src/DbColumn.cpp:87-90 | The final type of the specification |
| `Column.DbColumn.WarnTypeConflicts` | src/DbColumn.cpp:35-73 | The types listed are those of the specification, in order |
| `Column.DbColumn.ToVector` | src/DbColumn.cpp:75-85 | The vector is the one-pass column cut to n rows; `ColumnCells` says what that is for every cell |
| `Column.DbColumn.CopyChunks` | src/DbColumn.cpp:78-82 | Fills every row of the vector from the chunk that holds it |
| `Column.DbColumn.CopyChunk` | src/DbColumn.cpp:80-81 | Rows of one chunk land where they belong, earlier ones stay |
| `Column.RowOfChunk` | src/DbColumn.cpp:78-82 | Row j of chunk k is row (rows before it) + j of the column |
| `DataFrame.DbDataFrame.constructor` | src/DbDataFrame.cpp:10-23 | One empty column per type, sharing nothing |
| `DataFrame.DbDataFrame.SetColValues` | src/DbDataFrame.cpp:28-30 | Every column gets its cell of the row |
| `DataFrame.DbDataFrame.Advance` | src/DbDataFrame.cpp:32-39 | Counts the row; more may follow unless the limit is reached |
| `DataFrame.DbDataFrame.FinalizeCols` | src/DbDataFrame.cpp:73-75 | Every column is cut to the rows counted |
| `DataFrame.DbDataFrame.GetData` | src/DbDataFrame.cpp:47-67 | Columns, types and warnings are the one-pass ones of the rows set, cut to the rows counted |
| `DataFrame.DbDataFrame.Collect` | src/DbDataFrame.cpp:51-61 | The same, for finalized columns |
| `Statement.SqliteStmt.Step` | src/SqliteResultImpl.cpp:330-341 | The assumed sqlite3_step: rows of the run in order, then done; the first step of a run starts it |
| `Statement.SqliteStmt.Rebind` | src/SqliteResultImpl.cpp:227-233 | Reset, clear and bind put the statement before a run with the new parameters |
| `Statement.SqliteStmt.CurrentRow` | src/SqliteColumnDataSource.cpp:221-223 | One value per column, NULLs if the statement is not on a row |
| `Cursor.SqliteResult.constructor` | src/SqliteResultImpl.cpp:13-36 | A cursor with all types unknown; if the statement takes no parameters it is run at once, exactly once |
| `Cursor.SqliteResult.Bind` | src/SqliteResultImpl.cpp:125-145 | Exactly which parameters are refused, and how; otherwise, from any state, a clean start: one run per parameter row, run g with element g of every parameter, nothing handed out, everything of the new runs to come, types kept, and the statement has been started for the rows reached so far and for nothing else |
| `Cursor.SqliteResult.ValidateParams` | src/DbResult.cpp:75-86 | Accepts exactly parameters of equal lengths |
| `Cursor.SqliteResult.BindRow` | src/SqliteResultImpl.cpp:222-236 | Binds element `group` of every parameter if there is one, else changes nothing |
| `Cursor.SqliteResult.AfterBind` | src/SqliteResultImpl.cpp:298-302 | All rows of all runs are to come, the statement is on the first, and the runs up to it have been started once each, in order |
| `Cursor.SqliteResult.Step` | src/SqliteResultImpl.cpp:325-328 | Reaches the next row through any number of empty runs, losing none, and terminates; complete only when every run has been started once |
| `Cursor.SqliteResult.StepRun` | src/SqliteResultImpl.cpp:330-341 | A row, the end, or the start of the next run, with the same rows to come |
| `Cursor.SqliteResult.StepDone` | src/SqliteResultImpl.cpp:343-351 | On to the next parameter row, or complete |
| `Cursor.SqliteResult.Fetch` | src/SqliteResultImpl.cpp:147-161 | Fails only if not bound; otherwise hands out the next rows as one frame, counts them, is complete exactly when nothing is to come, and the runs started since the bind are those of the parameter rows reached, each once, in order, with earlier ones untouched; a fetch of 0 rows moves nothing |
| `Cursor.SqliteResult.FetchRows` | src/SqliteResultImpl.cpp:304-323 | The frame is that of the batch, and its types are kept for the next one |
| `Cursor.SqliteResult.Fill` | src/SqliteResultImpl.cpp:313-320 | The loop takes exactly the batch |
| `Cursor.SqliteResult.TakeRow` | src/SqliteResultImpl.cpp:315-318 | One round moves one row from the rows to come to the frame |
| `Cursor.SqliteResult.StepOver` | src/SqliteResultImpl.cpp:316-317 | Stepping past a row hands it out |
| `Cursor.SqliteResult.PeekFirstRow` | src/SqliteResultImpl.cpp:353-361 | No row is handed out; the types become those of a frame that has seen the next row |
| `Cursor.SqliteResult.GetColumnInfo` | src/SqliteResultImpl.cpp:163-191 | Names the types a fetch of 0 rows leaves; before the first bind every open column settles on its declaration |
| `Cursor.InfoNameFits` | src/SqliteResultImpl.cpp:173-188 | Each name is that of the R type of the elements of such a column, or its class |
| `CursorRuns.Streaming` | src/SqliteResultImpl.cpp:313-320 | Over any run of fetches the rows handed out are a prefix of all rows of all runs, and all of them exactly when nothing is to come |
| `CursorRuns.FetchesAreServed` | src/SqliteResultImpl.cpp:147-161 | A session of fetches alone is that run of fetches |
| `CursorRuns.SessionStreams` | src/SqliteResultImpl.cpp:125-161 | Over any session of fetches, descriptions and binds, the rows handed out since the last accepted bind and those to come are all rows of its runs, in order |
| `CursorRuns.Play` | src/SqliteResultImpl.cpp:125-191 | The cursor, driven through any such session, shows exactly what the requests make of its start, one after the other, and is complete exactly when no row is left |
| `CursorRuns.PeekTwiceServes` | src/SqliteResultImpl.cpp:353-361 | A peek moves nothing, and a second one changes nothing at all |
| `CursorRuns.DeliveredIsBatched` | src/SqliteResultImpl.cpp:304-323 | The frames of a run of fetches are the batched columns |
| `CursorRuns.TypesAreServed` | src/SqliteResultImpl.cpp:322 | The types the cursor keeps are those of the batches |
| `CursorRuns.BatchesAgreeWithOneFetch` | src/SqliteResultImpl.cpp:304-323 | Any batch sizes give the same number of rows and the same NAs for NULLs as one fetch of everything, and the same values up to widening if the column keeps its types |
| `CursorRuns.BatchValuesAreExact` | src/SqliteResultImpl.cpp:304-323 | Exactly when every value delivered in batches is, widened, that of one fetch |
| `CursorRuns.UniformColumnIgnoresBatches` | src/SqliteResultImpl.cpp:304-323 | If all values of a column share one type that is declared or the declaration is absent, the values are simply equal |
| `LineModel.JoinSplit` | src/import-file.c:99-110 | Joining the fields of any line gives back the line |
| `LineModel.SplitIsLeftmost` | src/import-file.c:99-110 | On a line without line breaks the split takes the leftmost separator each time |
| `LineModel.LeftmostIsUnique` | src/import-file.c:99-110 | A line has only one such split |
| `LineModel.SplitJoin` | src/import-file.c:99-110 | Splitting undoes joining if and only if the fields are a leftmost split |
| `LineModel.LineBreaks` | src/import-file.c:101 | The field scan stops at the end of the line, a line feed or a carriage return, and nowhere else |
| `LineModel.LeftmostForOneByte` | src/import-file.c:102 | For a one-byte separator: if and only if no field contains it |
| `LineModel.CleanForOneByte` | src/import-file.c:176-190 | For a one-byte terminator that is recognized the clean lines, which are those read back as written, are the non-empty ones without that byte and without NUL |
| `LineModel.NullMarker` | src/import-file.c:117-122 | A field is NULL if and only if it begins with a backslash and a capital N, else its text |
| `LineModel.CleanLineIsRead` | src/import-file.c:150-198 | A clean line is read as it is, up to its own terminator, whatever follows |
| `LineModel.ReadLineIsClean` | src/import-file.c:150-198 | And only a clean line is |
| `LineModel.ImportReadsLines` | src/import-file.c:92-141 | Clean lines with the right number of fields are inserted one by one, those after `skip`, and the import goes on behind them |
| `LineModel.ImportVerdict` | src/import-file.c:111-114 | For any file of lines that are clean or empty: the rows inserted are those of the lines after `skip` before the first line that is empty or has the wrong number of fields; an empty line ends the import without an error, the other with its number |
| `LineModel.ImportIsComplete` | src/import-file.c:92-114 | Such a file is imported without error and loss if and only if no line is empty and every line after `skip` has the right number of fields (or no line is left after `skip`) |
| `LineModel.ImportEnds` | src/import-file.c:192-197 | The import ends at the end of the file; an unterminated last line is undefined |
| `LineModel.ImportAtEmptyLine` | src/import-file.c:192-195 | It ends at an empty line, whatever follows, unless the terminator itself makes the look back leave the buffer |
| `LineModel.ImportRoundTrip` | src/import-file.c:92-141 | A table written with separators and terminators is imported row by row, every field as its text, or as NULL if it begins with \N |
| `LineModel.ImportRoundTripIsExact` | src/import-file.c:92-123 | It comes back as the text written if and only if no line is empty, every row is a leftmost split, and no field begins with \N |
| `ImportFile.InputFile.GetChar` | src/import-file.c:166 | The assumed fgetc: the next byte, or end of file |
| `ImportFile.MakeRoom` | src/import-file.c:167-172 | Capacities are 1024 * 2^k, and the next write is below them |
| `ImportFile.LooksBack` | src/import-file.c:176-185 | The backward comparison finds exactly the terminator |
| `LineModel.EqualsLastChar` | src/import-file.c:176 | Comparing a byte with a plain char is equality of bytes, except that it never holds for a negative char |
| `ImportFile.CheckEnd` | src/import-file.c:176-190 | A byte ends the line, leaves the buffer, or keeps the scan going, as the bytes read so far say |
| `ImportFile.AtEndOfFile` | src/import-file.c:192-195 | What the unterminated buffer yields |
| `ImportFile.GetLine` | src/import-file.c:150-198 | The bytes before the leftmost remaining terminator, NUL-terminated in the buffer, and the input behind it; no write past the capacity |
| `ImportFile.SeparatorAt` | src/import-file.c:102 | strncmp at a position finds exactly the separator |
| `ImportFile.CutField` | src/import-file.c:103 | A NUL over the separator ends the field and disturbs no earlier one |
| `ImportFile.SplitLine` | src/import-file.c:99-114 | A line is accepted if and only if its split has nCol fields, although the scan differs after too many, and then each recorded start holds its field as a C string |
| `ImportFile.BindField` | src/import-file.c:117-122 | NULL for a field that begins with \N, else its text |
| `ImportFile.BindFields` | src/import-file.c:116-123 | One value per field, in order |
| `ImportFile.Import` | src/import-file.c:26-142 | The rows inserted and the verdict are those of the whole-file specification |
| `Identifiers.UndoubleDouble` | R/dbQuoteIdentifier_SQLiteConnection_character.R:14 | Halving undoes doubling of backticks, for every string |
| `Identifiers.DoubleUndouble` | R/dbUnquoteIdentifier_SQLiteConnection_SQL.R:17-20 | Every quoted text that the pattern accepts is the doubling of its name |
| `Identifiers.ParseIsExact` | R/dbUnquoteIdentifier_SQLiteConnection_SQL.R:4-15 | The parser accepts exactly the strings the pattern matches, with the schema and table of that match |
| `Identifiers.MatchIsUnique` | R/dbUnquoteIdentifier_SQLiteConnection_SQL.R:4-11 | No string can be matched in two ways |
| `Identifiers.UnquoteAll` | R/dbUnquoteIdentifier_SQLiteConnection_SQL.R:3-25 | All strings are unquoted, or the first that cannot be is reported; the next row says what each is unquoted to |
| `Identifiers.UnquoteIsExact` | R/dbUnquoteIdentifier_SQLiteConnection_SQL.R:3-25 | A string is unquoted to an identifier if and only if it is a way to write it: nothing, a table, a schema with its dot, or both, each part quoted, or bare if it has no backtick, dot or space |
| `Identifiers.BareForms` | R/dbUnquoteIdentifier_SQLiteConnection_SQL.R:4-22 | Bare names come back as they are, alone and in every mixture with quoted ones |
| `Identifiers.QuoteRoundTrip` | R/dbQuoteIdentifier_SQLiteConnection_character.R:9-21 | Unquoting a quoted name gives the name without schema, for every name but the empty one |
| `Identifiers.QualifiedRoundTrip` | R/dbUnquoteIdentifier_SQLiteConnection_SQL.R:3-25 | The same for schema and table, whatever they contain |
| `Identifiers.QuoteIsInjective` | R/dbQuoteIdentifier_SQLiteConnection_character.R:14-19 | Distinct names have distinct quoted forms |
| `Identifiers.QuoteIsDelimited` | R/dbQuoteIdentifier_SQLiteConnection_character.R:14-19 | A quoted form is always a body between backticks in which every backtick is doubled |
| `Identifiers.QuoteAllRoundTrip` | R/dbQuoteIdentifier_SQLiteConnection_character.R:9-21 | The round trip element by element |
| `Transactions.Find` | R/dbRollback_SQLiteConnection.R:8-16 | A name refers to its most recent savepoint, in any letter case |
| `Transactions.NamesMatch` | R/dbRollback_SQLiteConnection.R:14-16 | Names match if and only if they differ at most in the case of ASCII letters |
| `Transactions.ErrorsAreExact` | R/dbBegin_SQLiteConnection.R:5-9 | Exactly when a statement fails, and why |
| `Transactions.CallSucceeds` | R/dbRollback_SQLiteConnection.R:3-19 | Exactly when a call of begin, commit or rollback ends without an error |
| `Transactions.CallEffects` | R/dbRollback_SQLiteConnection.R:3-19 | What begin, commit, rollback and write do to both views and the stack, in every state, errors included; rollback of a name restores its snapshot and drops the frames from it up |
| `Transactions.RunIsCoherent` | R/dbBegin_SQLiteConnection.R:3-12 | Over any run, other connections see the content the outermost frame started from, or the current one outside a transaction |
| `Transactions.VisibleChange` | R/dbCommit_SQLiteConnection.R:3-12 | Others' view changes only by a write outside transactions or the commit that empties the stack |
| `Transactions.RunKeepsLow` | R/dbBegin_SQLiteConnection.R:5-9 | A run that stays above a frame keeps it, and all below, and shows nothing |
| `Transactions.RollbackUndoesRun` | R/dbRollback_SQLiteConnection.R:5-17 | Begin, any such run, rollback: exactly the state before |
| `Transactions.CommitKeepsRun` | R/dbCommit_SQLiteConnection.R:5-9 | Begin, any such run, commit: the frames before and the content after, shown exactly if no frame remains |
| `WriteTable.SavepointIdsDiffer` | R/transactions.R:68-71 | The savepoint names of the two functions differ whatever the process and the random letters |
| `WriteTable.SavepointIdParts` | R/transactions.R:68-71 | Name, process and random letters can be read off a savepoint name, so equally long ones agree only in all of them |
| `WriteTable.OutermostIsFound` | R/dbWriteTable_SQLiteConnection_character_data.frame.R:85-87 | With the inner function's savepoints left open, the outer function's own is still found, at its place |
| `WriteTable.Connection.Execute` | R/dbCommit_SQLiteConnection.R:6-8 | One statement: it has its effect, or fails and has none |
| `WriteTable.Connection.DbBegin` | R/dbBegin_SQLiteConnection.R:3-12 | Pushes a snapshot of that name |
| `WriteTable.Connection.DbCommit` | R/dbCommit_SQLiteConnection.R:3-12 | Succeeds exactly if the savepoint exists and the step does not fail; releases it, or changes nothing |
| `WriteTable.Connection.DbRollback` | R/dbRollback_SQLiteConnection.R:14-16 | The exact state after it, whichever of its two statements fails |
| `WriteTable.Connection.InsertRows` | R/dbAppendTable_SQLiteConnection.R:9 | All rows in order if and only if no insert fails |
| `WriteTable.Connection.DbAppendTable` | R/dbAppendTable_SQLiteConnection.R:3-15 | Succeeds exactly if the table exists and no step fails; a failed release always leaves its savepoint open with all rows in it, and among single failures only that one does, all others leave nothing |
| `WriteTable.Connection.PrepareTable` | R/dbWriteTable_SQLiteConnection_character_data.frame.R:89-98 | Which existing tables are refused, removed or kept; fails only for that or for a failing step |
| `WriteTable.Connection.WriteFrame` | R/dbWriteTable_SQLiteConnection_character_data.frame.R:89-122 | The content after success, which is exactly when the flags allow it and no step fails; after a failure at most savepoints of the inner function lie on top |
| `WriteTable.Connection.Finish` | R/dbWriteTable_SQLiteConnection_character_data.frame.R:124-125 | Released and visible as the remaining stack allows, or rolled back to the start; only a rollback that fails after another failure leaves the savepoint open |
| `WriteTable.Connection.DbWriteTable` | R/dbWriteTable_SQLiteConnection_character_data.frame.R:85-127 | All or nothing: succeeds exactly if the flags allow it and no step fails; a single failing step leaves database and stack as on entry; only a second failure, in the handler, leaves its savepoint open, on an intact stack |
| `WriteTable.Connection.WriteFile` | R/dbWriteTable_SQLiteConnection_character_character.R:27-58 | The content after a successful import; the stack never changes |
| `WriteTable.Connection.DbWriteTableFile` | R/dbWriteTable_SQLiteConnection_character_character.R:13-63 | The same around the import of a whole file, which must end well |
| `WriteTable.HeaderIsNoRow` | R/dbWriteTable_SQLiteConnection_character_character.R:57-58 | From a file of clean lines, what is written is, with a header, all lines but the skipped ones and the next, and, without, that one too |
| `WriteTable.OtherTablesStay` | R/dbWriteTable_SQLiteConnection_character_data.frame.R:96-122 | A write changes one table only, to the new one or by its rows appended |

## Left out

- SQLite and SQLCipher themselves: stepping, conversions between storage classes and the meaning of savepoints are
  assumptions (`Statement`, `ColumnSource.Coercions`, `Transactions.Exec`).
- Parsing of dates, datetimes and times: parameters of `Coercions`; the warnings they raise are not modelled.
- Floating point: doubles are reals and NA_REAL; NaN, infinities and rounding are not modelled, and an integer beyond
  2^53 becomes a double by a parameter.
- R's memory management, attributes and classes of vectors, user interrupts, out-of-memory and
  overflow of row counts.
- NA among the names to quote, which is an error, and the `names` attribute of vectors of names.
- The wording of warnings and errors; of a mixed-type warning the types listed are modelled.
- Conversion of R parameter values to SQLite values, and matching of parameters by name: parameters are cells.
- Errors raised by a step in the middle of a fetch: a run of a statement yields all its rows.
- The number of affected rows, column and placeholder names, and the warning about queries that return no columns.
- The declared type of a column is asked for once per column, not per cell; it cannot change while a statement lives.
- Aliasing between a statement and several result objects: a result owns its statement.
- ImportFile.GetLine: the terminator must not be empty; with an empty one the code reads before the start of a string.
- ImportFile.Import: the same. Opening the file, preparing the insert and the leaks on error paths are not modelled; a
  failing insert is a failing step of `WriteTable.Connection.InsertRows`.
- LineModel.NextLine: behaviour that C leaves undefined is an outcome of its own, not described further.
- WriteTable.Connection.WriteFile: the terminator must not be empty. The rows are collected before they are inserted, not
  inserted line by line; an import of status `Undefined` counts as an error. The first lines, which the code reads
  to guess column types, only provide the field names.
- WriteTable.Connection.DbWriteTableFile: the terminator must not be empty.
- WriteTable.Connection.WriteFrame: the conversion of the data frame, the field definitions and the matching of columns are
  steps that may fail and otherwise change nothing; temporary tables and row names are not modelled.
- Stored values: column affinity is not applied to inserted cells, and rows keep their order of insertion.
- Failures after which SQLite rolls back a whole transaction on its own (a full disk, for instance), and locks held by
  other connections: a failing statement has no effect.
- Key functions, busy handlers, extension loading, deprecated wrappers: shallow or elsewhere.
- dbDataType, the helpers in R/table.R, and the conversion of 64-bit integers chosen by `bigint`.
