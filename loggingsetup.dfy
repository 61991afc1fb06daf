/** `setup_logging(debug_mode)`: the root logger's level and handler list, how
    the call replaces them, and which sinks a record of a given level then
    reaches. Levels are the integers of Python's `logging` module. */
module LoggingSetup {
  import opened LogTable
  import opened SQLiteStore

  const NOTSET := 0
  const DEBUG := 10
  const INFO := 20
  const WARNING := 30
  const ERROR := 40
  const CRITICAL := 50

  /** Where a record goes: the console stream, the SQLite table through a
      handler built with the given `max_entries`, or `logging.lastResort`,
      the stderr handler Python falls back on when a logger has no handler. */
  datatype Kind = Console | SQLite(maxEntries: int) | LastResort

  /** The level of `logging.lastResort`. */
  const LAST_RESORT_LEVEL := WARNING

  /** A handler attached to the root logger, with the minimum level set on it. */
  datatype Handler = Handler(kind: Kind, level: int)

  /** The root logger's configuration: its own level and its handlers in order. */
  datatype LoggerConfig = LoggerConfig(level: int, handlers: seq<Handler>)

  /** The configuration `setup_logging` is meant to install for each mode. */
  function ModeConfig(debugMode: bool): (c: LoggerConfig)
    ensures c.level == if debugMode then DEBUG else INFO
    ensures |c.handlers| >= 1 && c.handlers[0].kind == Console
    ensures forall i :: 0 <= i < |c.handlers| ==> c.handlers[i].level == c.level
    ensures (exists i :: 0 <= i < |c.handlers| && c.handlers[i].kind.SQLite?) <==> debugMode
    ensures forall i :: 0 <= i < |c.handlers| && c.handlers[i].kind.SQLite? ==> c.handlers[i].kind.maxEntries == MAX_LOG_ENTRIES
  {
    if debugMode then
      var hs := [Handler(Console, DEBUG), Handler(SQLite(MAX_LOG_ENTRIES), DEBUG)];
      assert hs[1].kind.SQLite?;
      LoggerConfig(DEBUG, hs)
    else
      LoggerConfig(INFO, [Handler(Console, INFO)])
  }

  /** The kinds, in attachment order, of the handlers of `hs` whose level
      lets a record of level `levelno` through. */
  function Receivers(hs: seq<Handler>, levelno: int): (r: seq<Kind>)
    ensures |r| <= |hs|
    ensures forall k :: k in r <==> exists i :: 0 <= i < |hs| && hs[i].kind == k && hs[i].level <= levelno
  {
    if hs == [] then []
    else
      var rest := Receivers(hs[1..], levelno);
      assert forall i :: 1 <= i < |hs| ==> hs[i] == hs[1..][i - 1];
      if hs[0].level <= levelno then [hs[0].kind] + rest else rest
  }

  /** The sinks a record of level `levelno` logged through the root logger
      (or a logger that defers to its level) reaches: none when the logger's
      level filters it out; else those of the handlers that accept it, or,
      when no handler is attached at all, `lastResort` if the record is at
      its level. */
  function Routed(c: LoggerConfig, levelno: int): (r: seq<Kind>)
    ensures levelno < c.level ==> r == []
    ensures c.handlers != [] ==> forall k :: k in r <==>
      levelno >= c.level && exists i :: 0 <= i < |c.handlers| && c.handlers[i].kind == k && c.handlers[i].level <= levelno
    ensures c.handlers == [] ==> forall k :: k in r <==>
      k == LastResort && levelno >= c.level && levelno >= LAST_RESORT_LEVEL
  {
    if levelno < c.level then []
    else if c.handlers == [] then (if levelno >= LAST_RESORT_LEVEL then [LastResort] else [])
    else Receivers(c.handlers, levelno)
  }

  predicate ReachesStore(c: LoggerConfig, levelno: int) {
    exists k :: k in Routed(c, levelno) && k.SQLite?
  }

  /** Before `setup_logging` the root logger is at WARNING with no handlers:
      a record at WARNING or above reaches only `lastResort` (stderr), a
      lower one nothing, and none reaches the SQLite store. */
  lemma UnconfiguredRouting(levelno: int)
    ensures Routed(LoggerConfig(WARNING, []), levelno) == if levelno >= WARNING then [LastResort] else []
    ensures !ReachesStore(LoggerConfig(WARNING, []), levelno)
  {
  }

  /** Debug mode: every record of level DEBUG or above goes to the console and
      to the SQLite store, in that order; nothing below DEBUG goes anywhere. */
  lemma DebugModeRouting(levelno: int)
    ensures Routed(ModeConfig(true), levelno) ==
      if levelno >= DEBUG then [Console, SQLite(MAX_LOG_ENTRIES)] else []
    ensures ReachesStore(ModeConfig(true), levelno) <==> levelno >= DEBUG
  {
    var c := ModeConfig(true);
    if levelno >= DEBUG {
      var hs := c.handlers;
      assert hs[1..][1..] == [];
      assert Receivers(hs[1..], levelno) == [SQLite(MAX_LOG_ENTRIES)];
      assert Routed(c, levelno)[1] == SQLite(MAX_LOG_ENTRIES);
    }
  }

  /** Quiet mode: records of level INFO or above go to the console only, and
      no record of any level reaches the SQLite store. */
  lemma QuietModeRouting(levelno: int)
    ensures Routed(ModeConfig(false), levelno) == if levelno >= INFO then [Console] else []
    ensures !ReachesStore(ModeConfig(false), levelno)
  {
  }

  /** The routing of both modes in closed form. */
  lemma ModeRouting(debugMode: bool, levelno: int)
    ensures Routed(ModeConfig(debugMode), levelno) ==
      if debugMode then (if levelno >= DEBUG then [Console, SQLite(MAX_LOG_ENTRIES)] else [])
      else (if levelno >= INFO then [Console] else [])
  {
    if debugMode { DebugModeRouting(levelno); } else { QuietModeRouting(levelno); }
  }

  /** `SQLiteHandler(db_path, max_entries)`: a handler at level NOTSET whose
      construction creates the table; `None` when `create_table` raises. */
  method NewSQLiteHandler(store: LogStore, maxEntries: int, fault: SchemaFault) returns (h: Option<Handler>)
    requires store.Valid()
    modifies store
    ensures store.Valid() && store.issued == old(store.issued)
    ensures store.Value() == TableAfterCreate(old(store.Value()), fault)
    ensures h == if fault == NoSchemaFault then Some(Handler(SQLite(maxEntries), NOTSET)) else None
  {
    var created := store.CreateTable(fault);
    h := if created then Some(Handler(SQLite(maxEntries), NOTSET)) else None;
  }

  /** The process-wide root logger of Python's `logging` module. */
  class RootLogger {
    var level: int
    var handlers: seq<Handler>

    /** The root logger as the `logging` module creates it: WARNING, no handlers. */
    constructor ()
      ensures level == WARNING && handlers == []
    {
      level, handlers := WARNING, [];
    }

    function Config(): LoggerConfig
      reads this
    {
      LoggerConfig(level, handlers)
    }

    /** `setup_logging(debug_mode)`: remove every handler, set the level,
        attach a console handler, and in debug mode an SQLite handler on the
        shared file. Building the SQLite handler runs `create_table`; when that
        raises (`ok` false) the exception leaves the call with the console
        handler already attached. Earlier handlers never survive. */
    method SetupLogging(debugMode: bool, store: LogStore, fault: SchemaFault) returns (ok: bool)
      requires store.Valid()
      modifies this, store
      ensures store.Valid() && store.issued == old(store.issued)
      ensures ok == (!debugMode || fault == NoSchemaFault)
      ensures ok ==> Config() == ModeConfig(debugMode)
      ensures !ok ==> Config() == LoggerConfig(DEBUG, [Handler(Console, DEBUG)])
      ensures store.Value() == if debugMode then TableAfterCreate(old(store.Value()), fault) else old(store.Value())
    {
      while handlers != []
        invariant unchanged(store)
        decreases |handlers|
      {
        // detach the first remaining handler
        handlers := handlers[1..];
      }
      level := if debugMode then DEBUG else INFO;
      // attach the console handler at the mode's level
      handlers := handlers + [Handler(Console, if debugMode then DEBUG else INFO)];
      if debugMode {
        var sqliteHandler := NewSQLiteHandler(store, MAX_LOG_ENTRIES, fault);
        if sqliteHandler == None {
          return false;
        }
        // raise the new handler to DEBUG and attach it
        handlers := handlers + [sqliteHandler.value.(level := DEBUG)];
      }
      ok := true;
    }
  }

  /** Calling `setup_logging` twice with the same flag leaves the
      configuration one call with the second call's outcome leaves, whatever
      was attached before; the file is what `create_table` run twice leaves,
      which is one successful run whenever the second call succeeds. */
  method SetupTwice(logger: RootLogger, store: LogStore, debugMode: bool, f1: SchemaFault, f2: SchemaFault)
    requires store.Valid()
    modifies logger, store
    ensures store.Valid()
    ensures !debugMode || f2 == NoSchemaFault ==> logger.Config() == ModeConfig(debugMode)
    ensures debugMode && f2 != NoSchemaFault ==> logger.Config() == LoggerConfig(DEBUG, [Handler(Console, DEBUG)])
    ensures !debugMode ==> store.Value() == old(store.Value())
    ensures debugMode && f2 == NoSchemaFault ==> store.Value() == TableAfterCreate(old(store.Value()), NoSchemaFault)
  {
    var first := logger.SetupLogging(debugMode, store, f1);
    var second := logger.SetupLogging(debugMode, store, f2);
    CreateTableIdempotent(old(store.Value()), f1);
  }
}
