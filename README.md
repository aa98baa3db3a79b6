# SQLAir query engine, modelled in Dafny

SQLAir is a small database server that loads CSV files (local files or
`http://` URLs) into memory and answers SQL-like commands against them:
`select <cols|*> from <file> [where <col> <op> <value>] [wait]`,
`update <file> set <col> = <value>, ... [where ...] [wait]`, `save`.
This project models the query-execution and table-registry core of
`SQLAir.cpp` as a single caller acting alone:

- `wrappers.dfy` — `Result`, standing for a C++ exception or a normal return.
- `text.dfy` — the text the engine writes: cells joined by tabs (`Join`),
  lines ended by newlines (`Terminated`), counts in decimal (`NatToString`),
  and the reader's side (`Split`, `DecimalValue`) with round-trip lemmas.
- `csv.dfy` — the table: `CsvData` (columns and rows as delivered by the
  loader), the class `Table` whose rows are overwritten in place, the
  column lookup (`IndexOf`), the optional where-clause (`Where`, with
  column index -1 for "no condition"), and the specification of one select
  scan (`MatchingIndices`, `SelectedLines`) and one update scan
  (`Assigned`, `UpdatedRows`), with the lemmas that say what they mean.
- `sqlair.dfy` — the class `SQLAir`: the registry (`inMemory`, `recent`),
  `ProcessSelectRow`, `SelectQuery`, `ProcessUpdateRow`, `UpdateQuery`,
  `LoadAndGet` and `SaveQuery`, each a method proved against the functions
  of `csv.dfy`.

`SQLAirBase::matches` and the loader (`CSV::load` over a file stream or an
HTTP download) are not part of this model: they are the class constants
`matches` and `load`, arbitrary functions given to the constructor, and
every property is proved for all of them. `CSV::getColumnIndex` is
modelled as the first position of the name in the column list.
`ProcessSelectRow` and `SelectQuery` have no `modifies` clause, so Dafny
checks that a select leaves the table unchanged.

The header line of a select is written by `os << colNames`; that
`operator<<` is not part of this model, and the model writes the names
joined by tabs, the same layout as the row lines.

`loadAndGet` raises no error for an empty identifier before any table was
used: the empty identifier is passed to the loader like any other, and the
most recent identifier is recorded before the load, so it stays set when the
load fails.

## Model

| member | source | states |
|---|---|---|
| Csv.IndexOf | SQLAir.cpp:52 | the index used for a column name holds that name and is its first occurrence |
| Csv.Project | SQLAir.cpp:51-53 | a projected row has one cell per requested name, in request order, each the row's cell under that name |
| Csv.MatchingIndicesExact | SQLAir.cpp:41-58 | a scan keeps every row that passes the where-clause and only those, each once, in table order |
| Csv.MatchingIndicesAll | SQLAir.cpp:48 | with column index -1 every row is kept, so a select counts all rows |
| Csv.SelectedLinesExact | SQLAir.cpp:48-57 | a select scan writes exactly one line per kept row: line k is the tab-join of the requested cells of the k-th kept row |
| Csv.SelectedTextReadsBack | SQLAir.cpp:50-55 | when no cell holds a tab or newline, the scan's text splits at newlines into its lines and each line splits at tabs into the requested cells of its row |
| Csv.Assigned | SQLAir.cpp:102-104 | assigning cells keeps the row's width |
| Csv.AssignedCells | SQLAir.cpp:102-104 | after the assignments, each named column holds the value of its last assignment and every column position no name resolves to keeps its cell (with a repeated column name only its first position is written) |
| Csv.UpdatedRows | SQLAir.cpp:97-107 | an update scan keeps the table rectangular |
| Csv.UpdatedRowsEffect | SQLAir.cpp:96-108 | an update keeps the row count, leaves non-matching rows alone, and in matching rows sets each named column to its last value and keeps every column position no name resolves to |
| Csv.UpdateWithoutMatches | SQLAir.cpp:122-131 | an update scan that matches nothing changes nothing, so a waiting update has written nothing |
| Csv.Table.constructor | SQLAir.cpp:232-254 | a table built from loaded data holds exactly its columns and rows and is rectangular |
| Text.SplitJoin | SQLAir.cpp:50-54 | cells joined by tabs split back into the same cells when none holds a tab |
| Text.SplitTerminated | SQLAir.cpp:55 | newline-terminated lines split back into the same lines, then the unterminated rest |
| Text.NatToString | SQLAir.cpp:88 | a printed count is a non-empty string of digits without a leading zero |
| Text.DecimalRoundTrip | SQLAir.cpp:88 | reading a printed count back gives the count |
| Engine.SQLAir.ProcessSelectRow | SQLAir.cpp:36-60 | returns the number of matching rows and appends to `toPrint` their lines, newline-terminated, in table order; the table is only read |
| Engine.SQLAir.AppendProjection | SQLAir.cpp:50-55 | appends the requested cells of one row separated by tabs, then a newline |
| Engine.SQLAir.SelectQuery | SQLAir.cpp:64-89 | an empty column list fails; "*" first stands for all columns in table order; the header and rows are written only when the count is positive; the count line always ends the reply; with wait and no match the caller waits |
| Engine.SQLAir.ProcessUpdateRow | SQLAir.cpp:93-109 | the rows become the updated rows of the old ones and the count is the number of old rows that matched; the table stays rectangular |
| Engine.SQLAir.UpdateQuery | SQLAir.cpp:112-136 | an empty column list fails and changes nothing; "*" first assigns all columns; waiters are woken exactly when some row matched (and so was written, even with its old values); the reply is the count line, or waiting when asked to wait and nothing matched |
| Engine.SQLAir.LoadAndGet | SQLAir.cpp:216-257 | an empty identifier means the most recent one; the resolved identifier becomes the most recent; a registered table is returned as is with the registry unchanged; otherwise a failed load is reported with the registry unchanged, and a successful one registers a fresh table with the loaded content under the identifier, leaving other entries alone |
| Engine.SQLAir.SaveQuery | SQLAir.cpp:260-268 | a save is refused exactly when there is no recent identifier or it begins with `http://`; otherwise the recent table's current content is written under its name, or the save fails when no table is registered under it |

## Left out

- Threads, mutexes and the condition variable (`rowMutex`, `csvMutex`, `csvCondVar`, `recentCSVMutex`, `thrCond`): the model has one caller. A `wait` query that finds nothing would block until another thread writes; here it returns `Waits`, and `UpdateQuery` returns `notifyAll` where the code calls `notify_all`.
- The duplicate load that two concurrent first resolutions of one identifier can perform; it needs two threads.
- `runServer`, `serveClient`, `setupDownload`: connection handling, HTTP framing, URL decoding, static files and downloads are network I/O.
- `CSV::load`, `CSV::save`, `CSV::getColumnNames`, `SQLAirBase::matches` and `Helper::*` are not part of this model; loading is the abstract `load` function, which returns a rectangular table or a failure reason.
- `SaveQuery` returns the path, content and confirmation that the code writes; the file itself is not modelled. The code opens (and so creates or empties) the file before it looks the table up, which the model does not capture.
- Unknown column names and a where-clause index other than -1 or a valid column are excluded by `requires`. What `CSV::getColumnIndex` does with an unknown name is not part of this model, and the code reaches that lookup (and the `at` on the where column) only for a row that exists or matches, so a scan over no matching rows would not touch it; these paths are not modelled. Fewer values than assigned columns is excluded the same way (the code indexes `values` without a check).
- Engine.SQLAir.SelectQuery: the header line is written by `os << colNames`, whose `operator<<` is not part of this model; the model assumes it joins the names with tabs, the layout of the row lines.
- The row count is a `nat`; the C++ `int` count could overflow only past 2^31 rows, which the model does not represent.
