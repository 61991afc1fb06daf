/** The committed content of the SQLite file behind `SQLiteHandler`, as a value:
    whether the `logs` table and its `idx_logs_id` index exist, the rows of the
    table (kept in insertion order, which is ascending id order), and the next
    AUTOINCREMENT id. The functions here say what `create_table` and `emit`
    leave committed; the class in SQLiteStore is proved against them. */
module LogTable {

  datatype Option<T> = None | Some(value: T)

  /** The column values `emit` takes from a log record: everything but the id.
      `timestamp` is the caller's clock reading, kept opaque. */
  datatype LogEntry = LogEntry(
    timestamp: string,
    level: string,
    message: string,
    moduleName: string,
    exception: Option<string>)

  /** The fields of a `logging.LogRecord` that `emit` reads; `message` is
      what `getMessage()` returns. Routing reads the record's level number,
      which is passed to it on its own. */
  datatype LogRecord = LogRecord(
    levelname: string,
    message: string,
    moduleName: string,
    excText: Option<string>)

  /** The column values `emit` builds from a record, stamped with `now`. */
  function EntryOf(rec: LogRecord, now: string): LogEntry {
    LogEntry(now, rec.levelname, rec.message, rec.moduleName, rec.excText)
  }

  /** One row of the `logs` table. */
  datatype Row = Row(id: nat, entry: LogEntry)

  /** Committed state of the database file. */
  datatype Store = Store(hasTable: bool, hasIndex: bool, rows: seq<Row>, nextId: nat)

  /** A database file that does not exist yet: no table, AUTOINCREMENT starts at 1. */
  const EmptyFile := Store(false, false, [], 1)

  /** The step at which `create_table` raises, if any. */
  datatype SchemaFault = NoSchemaFault | TableFails | IndexFails

  /** The step inside `emit`'s try block that raises, if any. `InsertFails`
      also stands for anything that raises before the INSERT (formatting the
      record's message, for one). */
  datatype StoreFault = NoFault | InsertFails | CountFails | DeleteFails | CommitFails

  predicate IdsAscending(rows: seq<Row>) {
    forall i, j :: 0 <= i < j < |rows| ==> rows[i].id < rows[j].id
  }

  predicate IdsBelow(rows: seq<Row>, bound: nat) {
    forall i :: 0 <= i < |rows| ==> rows[i].id < bound
  }

  /** The invariant of the file: ids unique and increasing in insertion order,
      all below the AUTOINCREMENT counter, no rows or index without the table. */
  predicate Valid(s: Store) {
    && IdsAscending(s.rows)
    && IdsBelow(s.rows, s.nextId)
    && (s.hasIndex ==> s.hasTable)
    && (!s.hasTable ==> s.rows == [])
  }

  function Min(a: int, b: int): int { if a <= b then a else b }

  /** `k` forced into the range 0..n. */
  function Clamp(k: int, n: nat): (c: nat)
    ensures c <= n
  {
    if k < 0 then 0 else if k > n then n else k
  }

  // ---------------------------------------------------------------- create_table

  /** What `create_table` leaves committed. Both statements say IF NOT EXISTS;
      each DDL statement commits on its own, so a failing CREATE INDEX leaves
      the table it follows in place. */
  function TableAfterCreate(s: Store, fault: SchemaFault): Store {
    match fault
    case NoSchemaFault => s.(hasTable := true, hasIndex := true)
    case TableFails => s
    case IndexFails => s.(hasTable := true)
  }

  /** `create_table` never touches rows or the id counter and keeps the file
      valid; each failure keeps exactly what was created before it. */
  lemma CreateTableKeepsRows(s: Store, fault: SchemaFault)
    requires Valid(s)
    ensures var r := TableAfterCreate(s, fault);
      && Valid(r) && r.rows == s.rows && r.nextId == s.nextId
      && (fault == NoSchemaFault ==> r.hasTable && r.hasIndex)
      && (fault == TableFails ==> r == s)
      && (fault == IndexFails ==> r.hasTable && r.hasIndex == s.hasIndex)
  {
  }

  /** Creating the table when it and its index already exist changes nothing,
      whether or not a statement raises; a successful call after any earlier
      call, failed or not, is the same as that one successful call. */
  lemma CreateTableIdempotent(s: Store, fault: SchemaFault)
    ensures TableAfterCreate(TableAfterCreate(s, fault), NoSchemaFault) == TableAfterCreate(s, NoSchemaFault)
    ensures s.hasTable && s.hasIndex ==> TableAfterCreate(s, fault) == s
  {
  }

  // ---------------------------------------------------------------- eviction

  /** `SELECT COUNT(*) FROM logs WHERE id < :id` over `table`. */
  function CountBelow(table: seq<Row>, id: nat): nat {
    if table == [] then 0
    else (if table[0].id < id then 1 else 0) + CountBelow(table[1..], id)
  }

  /** The rows of `rows` whose id is not among the `k` smallest ids of
      `table`: a row is among them when fewer than `k` rows of `table` have a
      smaller id. */
  function KeepRanked(rows: seq<Row>, table: seq<Row>, k: int): seq<Row> {
    if rows == [] then []
    else (if CountBelow(table, rows[0].id) < k then [] else [rows[0]]) + KeepRanked(rows[1..], table, k)
  }

  /** The table after
      `DELETE FROM logs WHERE id IN (SELECT id FROM logs ORDER BY id ASC LIMIT k)`. */
  function DeleteOldest(table: seq<Row>, k: int): seq<Row> {
    KeepRanked(table, table, k)
  }

  lemma {:induction false} CountBelowNone(table: seq<Row>, id: nat)
    requires forall j :: 0 <= j < |table| ==> id <= table[j].id
    ensures CountBelow(table, id) == 0
  {
    if table != [] {
      CountBelowNone(table[1..], id);
    }
  }

  /** In a table ordered by id, the row at position `i` has exactly `i` rows with a smaller id. */
  lemma {:induction false} CountBelowAscending(table: seq<Row>, i: nat)
    requires IdsAscending(table) && i < |table|
    ensures CountBelow(table, table[i].id) == i
  {
    if i == 0 {
      CountBelowNone(table[1..], table[0].id);
    } else {
      assert table[1..][i - 1] == table[i];
      CountBelowAscending(table[1..], i - 1);
    }
  }

  lemma {:induction false} KeepRankedSuffix(table: seq<Row>, j: nat, k: int)
    requires IdsAscending(table) && j <= |table|
    ensures var c := Clamp(k, |table|);
      KeepRanked(table[j..], table, k) == table[if j < c then c else j..]
    decreases |table| - j
  {
    if j < |table| {
      var rest := table[j..];
      assert rest[0] == table[j];
      assert rest[1..] == table[j + 1..];
      CountBelowAscending(table, j);
      KeepRankedSuffix(table, j + 1, k);
      if j >= k {
        assert table[j..] == [table[j]] + table[j + 1..];
      }
    }
  }

  /** On a table ordered by id, deleting the `k` oldest rows leaves the suffix
      after the first `k` rows (all of them when `k` is larger than the table,
      none when `k` is not positive). */
  lemma DeleteOldestIsSuffix(table: seq<Row>, k: int)
    requires IdsAscending(table)
    ensures DeleteOldest(table, k) == table[Clamp(k, |table|)..]
  {
    KeepRankedSuffix(table, 0, k);
    assert table[0..] == table;
  }

  // ---------------------------------------------------------------- emit

  /** The table right after the INSERT, still uncommitted. */
  function Inserted(s: Store, e: LogEntry): seq<Row> {
    s.rows + [Row(s.nextId, e)]
  }

  /** What a successful `emit` commits: the inserted row, then the oldest
      `count - maxEntries` rows deleted when the count exceeds `maxEntries`. */
  function Emitted(s: Store, maxEntries: int, e: LogEntry): Store {
    var inserted := Inserted(s, e);
    var count := |inserted|;
    var kept := if count > maxEntries then DeleteOldest(inserted, count - maxEntries) else inserted;
    s.(rows := kept, nextId := s.nextId + 1)
  }

  /** The largest value an SQLite INTEGER parameter can be bound to. */
  const MaxSQLiteInteger := 0x7fff_ffff_ffff_ffff

  /** Whether one of `emit`'s statements raises: the INSERT fails on a file
      without the table; the DELETE only runs when the count exceeds the
      limit, and binding its `LIMIT` parameter raises when the excess does
      not fit a 64-bit SQLite INTEGER. */
  predicate EmitFails(s: Store, maxEntries: int, fault: StoreFault) {
    || !s.hasTable
    || fault == InsertFails
    || fault == CountFails
    || (|s.rows| + 1 > maxEntries && (fault == DeleteFails || |s.rows| + 1 - maxEntries > MaxSQLiteInteger))
    || fault == CommitFails
  }

  /** A limit so negative that the excess passes 2^63 - 1 makes `emit`
      report even with no fault, and then the file is left as it was; at
      the edge the excess still fits and `emit` succeeds. */
  lemma EmitLimitOverflow(s: Store, e: LogEntry)
    requires s.hasTable
    ensures EmitFails(s, |s.rows| - MaxSQLiteInteger, NoFault)
    ensures StoreAfterEmit(s, |s.rows| - MaxSQLiteInteger, e, NoFault) == s
    ensures !EmitFails(s, |s.rows| + 1 - MaxSQLiteInteger, NoFault)
  {
  }

  /** What is committed after `emit`: on a failure nothing, since the
      connection is closed without a commit and the transaction rolls back. */
  function StoreAfterEmit(s: Store, maxEntries: int, e: LogEntry, fault: StoreFault): Store {
    if EmitFails(s, maxEntries, fault) then s else Emitted(s, maxEntries, e)
  }

  lemma InsertedAscending(s: Store, e: LogEntry)
    requires Valid(s)
    ensures IdsAscending(Inserted(s, e))
    ensures IdsBelow(Inserted(s, e), s.nextId + 1)
  {
  }

  /** The committed rows of a successful `emit` are the last ones of the
      table with the new row appended: min(count, maxEntries) of them
      (none at all when `maxEntries` is negative). */
  lemma {:induction false} EmittedKeepsNewest(s: Store, maxEntries: int, e: LogEntry)
    requires Valid(s)
    ensures var inserted := Inserted(s, e);
      var r := Emitted(s, maxEntries, e);
      && |r.rows| == (if maxEntries < 0 then 0 else Min(|inserted|, maxEntries))
      && r.rows == inserted[|inserted| - |r.rows|..]
  {
    var inserted := Inserted(s, e);
    InsertedAscending(s, e);
    if |inserted| > maxEntries {
      DeleteOldestIsSuffix(inserted, |inserted| - maxEntries);
    }
  }

  /** The size bound: after a successful `emit` the table holds at most
      `maxEntries` rows, and when the table was over the bound by several rows
      all of the excess goes in the one call. */
  lemma EmittedWithinBound(s: Store, maxEntries: int, e: LogEntry)
    requires Valid(s) && maxEntries >= 0
    ensures |Emitted(s, maxEntries, e).rows| <= maxEntries
    ensures |s.rows| + 1 > maxEntries ==>
      |Inserted(s, e)| - |Emitted(s, maxEntries, e).rows| == |s.rows| + 1 - maxEntries
  {
    EmittedKeepsNewest(s, maxEntries, e);
  }

  /** FIFO eviction: every row `emit` deletes has a smaller id than every row
      it keeps, and the new row is always kept while `maxEntries >= 1`. */
  lemma EmittedEvictsOldest(s: Store, maxEntries: int, e: LogEntry)
    requires Valid(s)
    ensures var inserted := Inserted(s, e);
      var kept := Emitted(s, maxEntries, e).rows;
      && (forall x, y :: x in inserted && x !in kept && y in kept ==> x.id < y.id)
      && (maxEntries >= 1 ==> |kept| > 0 && kept[|kept| - 1] == Row(s.nextId, e))
  {
    EmittedKeepsNewest(s, maxEntries, e);
    InsertedAscending(s, e);
    var inserted := Inserted(s, e);
    var kept := Emitted(s, maxEntries, e).rows;
    var cut := |inserted| - |kept|;
    forall x, y | x in inserted && x !in kept && y in kept
      ensures x.id < y.id
    {
      var i :| 0 <= i < |inserted| && inserted[i] == x;
      var j :| 0 <= j < |kept| && kept[j] == y;
      assert kept[j] == inserted[cut + j];
      assert i < cut;
    }
  }

  /** The row `emit` commits for a record carries a fresh id and the record's
      level name, message, module and exception text, and it is the newest
      row of the committed table. */
  lemma EmittedRowFromRecord(s: Store, maxEntries: int, rec: LogRecord, now: string)
    requires Valid(s) && maxEntries >= 1
    ensures var r := Emitted(s, maxEntries, EntryOf(rec, now)).rows;
      && |r| > 0
      && r[|r| - 1].id == s.nextId
      && (forall i :: 0 <= i < |r| - 1 ==> r[i].id < r[|r| - 1].id)
      && r[|r| - 1].entry == LogEntry(now, rec.levelname, rec.message, rec.moduleName, rec.excText)
  {
    EmittedNewRowLast(s, maxEntries, EntryOf(rec, now));
  }

  /** With room for at least one row, the new row is the last committed row
      and has the largest id in the table. */
  lemma EmittedNewRowLast(s: Store, maxEntries: int, e: LogEntry)
    requires Valid(s) && maxEntries >= 1
    ensures var r := Emitted(s, maxEntries, e).rows;
      && |r| > 0 && r[|r| - 1] == Row(s.nextId, e)
      && (forall i :: 0 <= i < |r| - 1 ==> r[i].id < r[|r| - 1].id)
  {
    EmittedEvictsOldest(s, maxEntries, e);
    if s.hasTable {
      EmittedFreshId(s, maxEntries, e);
    } else {
      EmittedKeepsNewest(s, maxEntries, e);
    }
  }


  /** Below the bound, `emit` only appends; no committed row is removed or changed. */
  lemma EmittedOnlyAppends(s: Store, maxEntries: int, e: LogEntry)
    requires |s.rows| + 1 <= maxEntries
    ensures Emitted(s, maxEntries, e).rows == s.rows + [Row(s.nextId, e)]
  {
  }

  /** The id `emit` assigns exceeds the id of every old row it keeps, the
      counter moves past it, and the file stays valid. */
  lemma {:induction false} EmittedFreshId(s: Store, maxEntries: int, e: LogEntry)
    requires Valid(s) && s.hasTable
    ensures forall r :: r in Emitted(s, maxEntries, e).rows && r != Row(s.nextId, e) ==> r.id < s.nextId
    ensures Emitted(s, maxEntries, e).nextId == s.nextId + 1
    ensures Valid(Emitted(s, maxEntries, e))
  {
    EmittedKeepsNewest(s, maxEntries, e);
    InsertedAscending(s, e);
    var inserted := Inserted(s, e);
    var r := Emitted(s, maxEntries, e).rows;
    var cut := |inserted| - |r|;
    assert forall i :: 0 <= i < |r| ==> r[i] == inserted[cut + i];
    forall x | x in r && x != Row(s.nextId, e)
      ensures x.id < s.nextId
    {
      EmittedRowOrigin(s, maxEntries, e, x);
    }
  }

  /** `emit` never leaves the file inconsistent, and a failing `emit` leaves it exactly as it was. */
  lemma StoreAfterEmitValid(s: Store, maxEntries: int, e: LogEntry, fault: StoreFault)
    requires Valid(s)
    ensures Valid(StoreAfterEmit(s, maxEntries, e, fault))
    ensures EmitFails(s, maxEntries, fault) ==> StoreAfterEmit(s, maxEntries, e, fault) == s
    ensures !EmitFails(s, maxEntries, fault) ==> StoreAfterEmit(s, maxEntries, e, fault).nextId == s.nextId + 1
  {
    if !EmitFails(s, maxEntries, fault) {
      EmittedFreshId(s, maxEntries, e);
    }
  }

  // ---------------------------------------------------------------- many emits

  /** The file after a run of successful `emit` calls, one per entry. */
  function EmitAll(s: Store, maxEntries: int, es: seq<LogEntry>): Store
    decreases |es|
  {
    if es == [] then s else EmitAll(Emitted(s, maxEntries, es[0]), maxEntries, es[1..])
  }

  /** The column values of the rows, in table order. */
  function Entries(rows: seq<Row>): (r: seq<LogEntry>)
    ensures |r| == |rows|
    ensures forall i :: 0 <= i < |rows| ==> r[i] == rows[i].entry
  {
    seq(|rows|, i requires 0 <= i < |rows| => rows[i].entry)
  }

  /** The last `n` elements of `xs` (all of them when there are fewer). */
  function Newest(xs: seq<LogEntry>, n: int): (r: seq<LogEntry>)
    ensures |r| == Clamp(n, |xs|)
  {
    xs[|xs| - Clamp(n, |xs|)..]
  }

  lemma EntriesOfSuffix(rows: seq<Row>, k: nat)
    requires k <= |rows|
    ensures Entries(rows[k..]) == Entries(rows)[k..]
  {
  }

  lemma EntriesOfAppend(rows: seq<Row>, row: Row)
    ensures Entries(rows + [row]) == Entries(rows) + [row.entry]
  {
  }

  /** The entries a successful `emit` keeps are the newest `maxEntries` of
      the old entries followed by the new one. */
  lemma EmittedEntries(s: Store, maxEntries: int, e: LogEntry)
    requires Valid(s)
    ensures Entries(Emitted(s, maxEntries, e).rows) == Newest(Entries(s.rows) + [e], maxEntries)
  {
    var inserted := Inserted(s, e);
    var r := Emitted(s, maxEntries, e).rows;
    EmittedKeepsNewest(s, maxEntries, e);
    EntriesOfSuffix(inserted, |inserted| - |r|);
    EntriesOfAppend(s.rows, Row(s.nextId, e));
  }

  /** A run of successful `emit` calls keeps the file valid and advances the
      counter by the number of calls. */
  lemma {:induction false} EmitAllValid(s: Store, maxEntries: int, es: seq<LogEntry>)
    requires Valid(s) && s.hasTable
    ensures var r := EmitAll(s, maxEntries, es);
      Valid(r) && r.hasTable && r.nextId == s.nextId + |es|
    decreases |es|
  {
    if es != [] {
      EmittedFreshId(s, maxEntries, es[0]);
      EmitAllValid(Emitted(s, maxEntries, es[0]), maxEntries, es[1..]);
    }
  }

  /** Every row a successful `emit` commits was already in the table or is the new row. */
  lemma EmittedRowOrigin(s: Store, maxEntries: int, e: LogEntry, r: Row)
    requires Valid(s) && r in Emitted(s, maxEntries, e).rows
    ensures r in s.rows || r == Row(s.nextId, e)
  {
    EmittedKeepsNewest(s, maxEntries, e);
    var inserted := Inserted(s, e);
    var kept := Emitted(s, maxEntries, e).rows;
    var i :| 0 <= i < |kept| && kept[i] == r;
    assert r == inserted[|inserted| - |kept| + i];
  }

  /** A row after a run of successful `emit` calls is an old row or the row
      of entry `id - nextId` of the run. */
  lemma {:induction false} EmitAllRowOrigin(s: Store, maxEntries: int, es: seq<LogEntry>, r: Row)
    requires Valid(s) && s.hasTable && r in EmitAll(s, maxEntries, es).rows
    ensures r in s.rows || (s.nextId <= r.id < s.nextId + |es| && r.entry == es[r.id - s.nextId])
    decreases |es|
  {
    if es != [] {
      var s1 := Emitted(s, maxEntries, es[0]);
      EmittedFreshId(s, maxEntries, es[0]);
      EmitAllRowOrigin(s1, maxEntries, es[1..], r);
      if r in s1.rows {
        EmittedRowOrigin(s, maxEntries, es[0], r);
      } else {
        assert es[1..][r.id - s1.nextId] == es[r.id - s.nextId];
      }
    }
  }

  /** A run of successful `emit` calls gives the i-th entry of the run the
      id `nextId + i`: every row afterwards is an old row or carries the
      entry its id stands for. */
  lemma EmitAllAssignsIds(s: Store, maxEntries: int, es: seq<LogEntry>)
    requires Valid(s) && s.hasTable
    ensures forall r :: r in EmitAll(s, maxEntries, es).rows ==>
      r in s.rows || (s.nextId <= r.id < s.nextId + |es| && r.entry == es[r.id - s.nextId])
  {
    forall r | r in EmitAll(s, maxEntries, es).rows
      ensures r in s.rows || (s.nextId <= r.id < s.nextId + |es| && r.entry == es[r.id - s.nextId])
    {
      EmitAllRowOrigin(s, maxEntries, es, r);
    }
  }

  /** One more entry, trimmed, then the rest, trimmed: the same as trimming everything at once. */
  lemma NewestStep(before: seq<LogEntry>, e: LogEntry, rest: seq<LogEntry>, n: int)
    ensures Newest(Newest(before + [e], n) + rest, n) == Newest(before + ([e] + rest), n)
  {
  }

  /** A run of successful `emit` calls keeps exactly the newest `maxEntries`
      entries of everything the table has held, in insertion order. */
  lemma {:induction false} EmitAllRetainsNewest(s: Store, maxEntries: int, es: seq<LogEntry>)
    requires Valid(s) && s.hasTable
    requires es != [] || s.rows == [] || |s.rows| <= maxEntries
    ensures Entries(EmitAll(s, maxEntries, es).rows) == Newest(Entries(s.rows) + es, maxEntries)
    decreases |es|
  {
    if es == [] {
      assert Entries(s.rows) + es == Entries(s.rows);
    } else {
      var s1 := Emitted(s, maxEntries, es[0]);
      EmittedEntries(s, maxEntries, es[0]);
      EmittedFreshId(s, maxEntries, es[0]);
      EmitAllRetainsNewest(s1, maxEntries, es[1..]);
      NewestStep(Entries(s.rows), es[0], es[1..], maxEntries);
      assert [es[0]] + es[1..] == es;
    }
  }

  /** The capacity bound over a run: after n successful `emit` calls the table
      holds min(old count + n, maxEntries) rows. */
  lemma EmitAllCount(s: Store, maxEntries: int, es: seq<LogEntry>)
    requires Valid(s) && s.hasTable && maxEntries >= 0
    requires es != [] || |s.rows| <= maxEntries
    ensures |EmitAll(s, maxEntries, es).rows| == Min(|s.rows| + |es|, maxEntries)
  {
    EmitAllRetainsNewest(s, maxEntries, es);
    assert |Entries(EmitAll(s, maxEntries, es).rows)| == |EmitAll(s, maxEntries, es).rows|;
  }

  /** Four messages into a table of capacity three: the first is gone, the other three remain in order. */
  lemma FourIntoThree(a: LogEntry, b: LogEntry, c: LogEntry, d: LogEntry)
    ensures var r := EmitAll(EmptyFile.(hasTable := true, hasIndex := true), 3, [a, b, c, d]);
      Entries(r.rows) == [b, c, d] && |r.rows| == 3 && r.nextId == 5
  {
    var s := EmptyFile.(hasTable := true, hasIndex := true);
    EmitAllRetainsNewest(s, 3, [a, b, c, d]);
    EmitAllCount(s, 3, [a, b, c, d]);
    EmitAllValid(s, 3, [a, b, c, d]);
    assert Entries(s.rows) + [a, b, c, d] == [a, b, c, d];
  }
}
