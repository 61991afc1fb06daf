# Bounded SQLite log store and mode-driven logging setup

A Dafny model of `logging_config.py`: the `SQLiteHandler` that writes every
log record it receives into the `logs` table of an SQLite file. It keeps at
most `max_entries` rows by deleting the oldest ones. The model also covers
`setup_logging(debug_mode)`, which empties the root logger's handler list and
installs either a DEBUG console handler plus a DEBUG SQLite handler (debug
mode) or a single INFO console handler (quiet mode).

Files and modules:

- `logtable.dfy`, module `LogTable`: the committed content of the database
  file as a value (`Store`: table and index flags, rows in id order, the
  AUTOINCREMENT counter). It has the functions that say what `create_table`
  and `emit` commit, and the lemmas about them. The DELETE statement
  (`... WHERE id IN (SELECT id ... ORDER BY id ASC LIMIT k)`) is modelled
  from its definition, without relying on row order: a row goes when fewer
  than `k` rows have a smaller id (`DeleteOldest`). A lemma then shows that
  on a table in id order this removes exactly the first `k` rows.
- `sqlitestore.dfy`, module `SQLiteStore`: class `LogStore`, the database
  file as an object updated in place. `CreateTable` and `Emit` are proved
  against the `LogTable` functions. A ghost set `issued` records every id
  ever committed, so that "ids are never reused, even after eviction" can
  be stated.
- `loggingsetup.dfy`, module `LoggingSetup`: logging levels (NOTSET 0,
  DEBUG 10, INFO 20, WARNING 30, ERROR 40, CRITICAL 50), handler records,
  the per-mode configuration `ModeConfig` and the pure routing function
  `Routed`. It also has class `RootLogger`, whose `SetupLogging` runs the
  handler-clearing loop and installs the handlers.

Inputs that the source reads from the environment are parameters here:

- The clock reading for the `timestamp` column is an opaque string, `now`.
- The failure of a database statement is a `fault` argument. It names the
  statement that raises (`StoreFault`, `SchemaFault`).
- `debug_mode` is a plain boolean.
- The file at `LOG_DB_PATH` is the one `LogStore` object passed in.

Three behaviours of `logging_config.py` the model keeps:

- Insert, count and delete run in one transaction. Python's `sqlite3` opens
  a transaction before the INSERT, and nothing is committed until the
  commit at line 91 or 93. So `emit` is atomic: any failure before the
  commit leaves the committed table, including the AUTOINCREMENT counter,
  as it was.
- Nothing validates `max_entries`. If it is not positive, every successful
  `emit` deletes every row, the new one included. `EmittedKeepsNewest`
  states this case (no rows when `max_entries <= 0`). When it is so negative
  that the excess `count - max_entries` exceeds 2^63 - 1, the largest SQLite
  INTEGER, binding the excess to the DELETE's `LIMIT` raises. That `emit`
  reports and commits nothing (`EmitFails`).
- The two DDL statements of `create_table` run outside a transaction and
  each takes effect on its own. If CREATE INDEX raises, the table stays
  created (`TableAfterCreate`, `IndexFails`). The exception leaves
  `SQLiteHandler.__init__` and `setup_logging` with the console handler
  already attached (`SetupLogging` returns `ok == false`).

## Model

| member | source | states |
|---|---|---|
| `LogTable.EntryOf` | logging_config.py:56-62 | defines the column values `emit` builds: the clock reading at emit time as timestamp, then the record's level name, message, module and exception text (none when the record has no exception); `EmittedRowFromRecord` states what the committed row carries |
| `LogTable.TableAfterCreate` | logging_config.py:20-45 | defines the committed file after `create_table`: both statements succeed, CREATE TABLE raises before anything is created, or CREATE INDEX raises after the table exists; `CreateTableKeepsRows` states its properties |
| `LogTable.CreateTableKeepsRows` | logging_config.py:20-45 | `create_table` never touches rows or the id counter and keeps the file valid; with no failure both table and index exist afterwards; when CREATE TABLE raises the file is unchanged; when CREATE INDEX raises the table exists and the index is as before |
| `LogTable.CreateTableIdempotent` | logging_config.py:27-40 | a successful call after any earlier call, failed or not, leaves what one successful call leaves; when table and index already exist, a call changes nothing whatever fails |
| `LogTable.CountBelow` | logging_config.py:83-86 | defines a row's rank in `ORDER BY id ASC`: the number of rows with a smaller id; `CountBelowAscending` states its meaning |
| `LogTable.KeepRanked` | logging_config.py:80-90 | defines which rows survive the DELETE: those whose rank is at least k; `KeepRankedSuffix` states its effect |
| `LogTable.DeleteOldest` | logging_config.py:80-90 | defines the DELETE of the k smallest ids on the table itself; `DeleteOldestIsSuffix` states its effect |
| `LogTable.CountBelowAscending` | logging_config.py:83-86 | in a table ordered by id, the row at position i has exactly i rows with a smaller id (its rank in `ORDER BY id ASC`) |
| `LogTable.KeepRankedSuffix` | logging_config.py:80-90 | on a table ordered by id, keeping the rows of a suffix whose rank is at least k yields the suffix that starts at k, clamped to the table |
| `LogTable.DeleteOldestIsSuffix` | logging_config.py:80-90 | the DELETE of the k smallest ids leaves exactly the table minus its first k rows: all rows go when k exceeds the count, and no row goes when k is not positive |
| `LogTable.Emitted` | logging_config.py:64-93 | defines what a successful `emit` commits: the insert with the next id, then the conditional delete of the excess; its properties are the `Emitted...` lemmas |
| `LogTable.EmitFails` | logging_config.py:51-98 | defines when `emit` raises and reports: no table, or the INSERT, COUNT or commit fails, or, when over the limit, the DELETE fails or the excess bound to its `LIMIT` does not fit a 64-bit SQLite INTEGER |
| `LogTable.EmitLimitOverflow` | logging_config.py:78-96 | with no fault, an excess of 2^63 makes `emit` report and leave the file as it was, while an excess of 2^63 - 1 still succeeds |
| `LogTable.StoreAfterEmit` | logging_config.py:51-98 | defines the committed file after `emit`: unchanged on a failure, since nothing was committed, else `Emitted`; `StoreAfterEmitValid` states its properties |
| `LogTable.EmittedKeepsNewest` | logging_config.py:64-90 | after the insert and the conditional delete, the rows are the last min(count, max_entries) rows of the table with the new row appended; there are none when max_entries is negative |
| `LogTable.EmittedWithinBound` | logging_config.py:74-90 | with max_entries >= 0, a successful emit leaves at most max_entries rows; when over capacity it deletes exactly count - max_entries rows, several at once if the table was already over |
| `LogTable.EmittedEvictsOldest` | logging_config.py:76-90 | every deleted row has a smaller id than every kept row, and with max_entries >= 1 the new row is kept, as the last row |
| `LogTable.EmittedNewRowLast` | logging_config.py:64-90 | with max_entries >= 1 the new row `Row(nextId, e)` is the last committed row, and its id is above the id of every other committed row |
| `LogTable.EmittedRowFromRecord` | logging_config.py:56-71 | the last committed row has id nextId, above the id of every other row of the committed table, and carries the emit-time clock reading `now` as its timestamp (the `datetime.utcnow()` of line 57, not a time from the record), then the record's level name, message, module and exception text |
| `LogTable.EmittedOnlyAppends` | logging_config.py:65-93 | when the count after the insert is within max_entries, the table is the old rows plus the new row: nothing removed or changed |
| `LogTable.EmittedFreshId` | logging_config.py:28-28 | every kept old row has an id below the new id, the counter advances by one, and the file stays valid (ids increasing, below the counter) |
| `LogTable.StoreAfterEmitValid` | logging_config.py:51-98 | emit keeps the file valid whatever fails; a failing emit leaves the committed file exactly as it was; a successful one advances the counter |
| `LogTable.EmittedEntries` | logging_config.py:64-90 | the column values kept after one emit are the newest max_entries of the old values followed by the new one |
| `LogTable.NewestStep` | logging_config.py:76-90 | keeping the newest n after one more entry, then appending the rest and keeping the newest n again, is the same as keeping the newest n of everything at once |
| `LogTable.EmitAll` | logging_config.py:64-93 | defines the file after a run of successful `emit` calls, one per entry, in order; the `EmitAll...` lemmas state its properties |
| `LogTable.EmitAllValid` | logging_config.py:64-93 | a run of successful emits keeps the file valid and leaves the table; the counter advances by the number of emits |
| `LogTable.EmitAllAssignsIds` | logging_config.py:64-93 | after a run of successful emits every row is an old row, or has an id in nextId .. nextId + n - 1 and carries entry `id - nextId` of the run: the i-th emit gets id nextId + i |
| `LogTable.EmitAllCount` | logging_config.py:64-93 | after a run of successful emits the table holds min(old count + number of emits, max_entries) rows |
| `LogTable.EmitAllRetainsNewest` | logging_config.py:64-93 | a run of successful emits keeps exactly the newest max_entries of all entries, old and new, in insertion order, so the count is min(old count + appended, max_entries) |
| `LogTable.FourIntoThree` | logging_config.py:64-93 | with capacity 3, emitting a, b, c, d into an empty table leaves b, c, d in that order, and the next id is 5 |
| `SQLiteStore.LogStore.constructor` | logging_config.py:22-22 | the file that `sqlite3.connect` opens on first use: no table, no index, no rows, the AUTOINCREMENT counter at 1 and no id issued yet; the file is valid |
| `SQLiteStore.LogStore.CreateTable` | logging_config.py:20-45 | the committed file becomes `TableAfterCreate` of the old one; `ok` is true exactly when no statement raised; no id is issued |
| `SQLiteStore.LogStore.Emit` | logging_config.py:47-98 | `reported` (the caught and printed exception) is true exactly when a statement raised; the committed file becomes `StoreAfterEmit` of the old one; on success exactly one new id is issued, above every id ever issued; on failure none is |
| `LoggingSetup.ModeConfig` | logging_config.py:117-144 | the handlers each mode attaches: DEBUG level with a DEBUG console handler and a DEBUG SQLite handler using `MAX_LOG_ENTRIES` (10000, line 7), or INFO level with an INFO console handler; the console handler comes first and every handler has the logger's level |
| `LoggingSetup.Receivers` | logging_config.py:123-144 | a kind is in the result exactly when some handler of that kind has a level at or below the record's level |
| `LoggingSetup.Routed` | logging_config.py:117-139 | nothing is routed below the logger's level; otherwise, with handlers attached, a sink receives the record exactly when one of its handlers' levels admits it, and with none attached only `logging.lastResort` receives it, when the record is at WARNING or above |
| `LoggingSetup.UnconfiguredRouting` | logging_config.py:110-110 | before `setup_logging` the root logger (WARNING, no handlers) sends a record at WARNING or above to `lastResort` (stderr) only, a lower one nowhere, and none to the SQLite store |
| `LoggingSetup.DebugModeRouting` | logging_config.py:117-144 | in debug mode, a record at DEBUG or above goes to the console and then to the SQLite store, and records below DEBUG go nowhere; the store receives a record exactly when its level is at least DEBUG |
| `LoggingSetup.QuietModeRouting` | logging_config.py:119-154 | in quiet mode, a record at INFO or above goes to the console only, and no record of any level reaches the SQLite store |
| `LoggingSetup.ModeRouting` | logging_config.py:117-154 | the closed form of routing for both modes: in debug mode a record at DEBUG or above goes to the console and then the SQLite store, in quiet mode a record at INFO or above goes to the console only, and any other record goes nowhere |
| `LoggingSetup.NewSQLiteHandler` | logging_config.py:14-18 | constructing the handler runs `create_table` on the file; the result is a level-NOTSET SQLite handler with the given max_entries exactly when `create_table` did not raise |
| `LoggingSetup.RootLogger.constructor` | logging_config.py:110-110 | the root logger that `logging.getLogger()` returns before any setup: level WARNING, no handlers |
| `LoggingSetup.RootLogger.SetupLogging` | logging_config.py:101-154 | the handler list afterwards holds only this call's handlers: exactly `ModeConfig(debug_mode)` on success; in debug mode, when `create_table` raises, only the DEBUG console handler; the file changes only in debug mode, by `create_table` |
| `LoggingSetup.SetupTwice` | logging_config.py:101-154 | calling `setup_logging` twice with the same flag leaves the configuration that one call with the second call's outcome leaves, whatever the first did; in quiet mode the file is untouched, and in debug mode a successful second call leaves the file one successful `create_table` leaves |

## Left out

- Opening the connection (`sqlite3.connect`) is assumed to succeed. If it
  raises inside `emit`, `conn` is unbound and the `finally` clause raises
  again, so the never-raises claim excludes that case.
- SQL text, the connection and cursor objects, and the close mechanics are
  not modelled. The descending index appears only as a flag; it is an
  optimisation with no effect on the table's content.
- Ids are unbounded naturals. SQLite's AUTOINCREMENT stops at 2^63 - 1 and
  then fails the INSERT with SQLITE_FULL; the model never reaches that limit.
- Timestamps come from the caller as an opaque string. The order of rows is
  by id, as in `logging_config.py`.
- `LOG_DB_PATH` (an environment lookup), formatters and their format
  strings, and console output are left out. The console handler appears
  only as a routing target.
- The fallback `print` in `emit` is reduced to the `reported` flag.
- Concurrent writers are left out. Their serialisation comes from SQLite's
  locking, which this code does not show.
- The commented-out CRITICAL-only option in quiet mode is left out, since
  it is not executed.
- config.py is not part of this model. Only its debug flag matters here, and
  it is the `debugMode` argument.
- The dispatch inside Python's `logging` module that calls handlers is not
  modelled as code. It is summarised by `Routed`: the logger's level check,
  then each handler's level check, or the `lastResort` fallback (level
  WARNING) when no handler is attached. A program that sets
  `logging.lastResort` to `None` is not modelled. Every configuration
  `SetupLogging` leaves has at least one handler, so the fallback applies
  only before setup.
- `addHandler`'s duplicate check is not modelled. Handlers are appended,
  and the check cannot fire here because the list was emptied just before.
- The `logs` table's NOT NULL constraints (on `timestamp`, `level` and
  `message`) are not modelled. Those values are the clock reading, the level
  name and the message, which are always text.
