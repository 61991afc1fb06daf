/** The SQLite file that `SQLiteHandler` writes, as an object whose committed
    state `create_table` and `emit` update in place. A handler holds the path of
    this file and its own `max_entries`; here the file is the `LogStore` object
    and `max_entries` is passed to `Emit`. */
module SQLiteStore {
  import opened LogTable

  /** Rows kept by the handlers that `setup_logging` installs. */
  const MAX_LOG_ENTRIES := 10000

  class LogStore {
    var hasTable: bool
    var hasIndex: bool
    var rows: seq<Row>
    var nextId: nat
    /** Every id ever committed, including those evicted since. */
    ghost var issued: set<nat>

    function Value(): Store
      reads this
    {
      Store(hasTable, hasIndex, rows, nextId)
    }

    ghost predicate Valid()
      reads this
    {
      && LogTable.Valid(Value())
      && (forall id :: id in issued ==> id < nextId)
      && (forall i :: 0 <= i < |rows| ==> rows[i].id in issued)
    }

    /** A database file that has never been opened. */
    constructor ()
      ensures Valid() && Value() == EmptyFile && issued == {}
    {
      hasTable, hasIndex, rows, nextId := false, false, [], 1;
      issued := {};
    }

    /** `SQLiteHandler.create_table`: CREATE TABLE IF NOT EXISTS, then CREATE
        INDEX IF NOT EXISTS. `ok` is false when one of them raises; the
        exception then leaves `__init__` and `setup_logging`. */
    method CreateTable(fault: SchemaFault) returns (ok: bool)
      requires Valid()
      modifies this
      ensures Valid()
      ensures ok == (fault == NoSchemaFault)
      ensures Value() == TableAfterCreate(old(Value()), fault)
      ensures issued == old(issued)
    {
      if fault == TableFails {
        return false;
      }
      hasTable := true;
      if fault == IndexFails {
        return false;
      }
      hasIndex := true;
      ok := true;
    }

    /** `SQLiteHandler.emit`: build the row values from the record and the
        clock reading `now`, insert them with the next id, count the
        rows, delete the `count - maxEntries` oldest when the count is over
        `maxEntries`, commit. Nothing is committed until the end, so a
        statement that raises leaves the file as it was; the exception is
        caught and reported (`reported`), never propagated. */
    method Emit(maxEntries: int, record: LogRecord, now: string, fault: StoreFault) returns (reported: bool)
      requires Valid()
      modifies this
      ensures Valid()
      ensures reported == EmitFails(old(Value()), maxEntries, fault)
      ensures Value() == StoreAfterEmit(old(Value()), maxEntries, EntryOf(record, now), fault)
      ensures !reported ==>
        && (forall id :: id in old(issued) ==> id < old(nextId))
        && issued == old(issued) + {old(nextId)}
      ensures reported ==> issued == old(issued)
    {
      var entry := EntryOf(record, now);
      if !hasTable || fault == InsertFails {
        return true;
      }
      var pending := rows + [Row(nextId, entry)];
      if fault == CountFails {
        return true;
      }
      var count := |pending|;
      if count > maxEntries {
        var excess := count - maxEntries;
        if fault == DeleteFails || excess > MaxSQLiteInteger {
          // the DELETE raises, or binding `excess` to its LIMIT does
          return true;
        }
        pending := DeleteOldest(pending, excess);
      }
      if fault == CommitFails {
        return true;
      }
      ghost var before := Value();
      EmittedFreshId(before, maxEntries, entry);
      assert pending == Emitted(before, maxEntries, entry).rows;
      forall i | 0 <= i < |pending|
        ensures pending[i].id in issued || pending[i].id == nextId
      {
        EmittedRowOrigin(before, maxEntries, entry, pending[i]);
      }
      rows, nextId := pending, nextId + 1;
      issued := issued + {old(nextId)};
      reported := false;
    }
  }
}
