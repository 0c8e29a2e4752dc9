/** Whole histories of a Durable Object connection: statements, batches and transactions, committed or not. */
module DoHistory {
  import opened Wrappers
  import opened Values
  import opened Errors
  import opened JsBoundary
  import opened Rows
  import opened Reading
  import opened Results
  import opened Storage
  import opened Queries
  import opened DoDriver
  import opened DoLaws
  import opened DoTransaction
  import opened DoBatch

  /** One query through the executor: for its effect, which reads the counters, or for its rows alone. */
  datatype Call = Call(sql: string, arguments: seq<Value>, limit: Option<nat>, forEffect: bool)

  /**
   One operation on a connection. A transaction's callback is the queries it ran, whatever it made of their
   answers, and how it ended; the value it ended with makes no difference to the database.
   */
  datatype Operation =
    | One(call: Call)
    | Whole(queries: seq<Query>, batchEnd: Platform)
    | Interactive(calls: seq<Call>, ending: Result<(), Error>, end: Platform)

  function RunCall(backend: Backend, db: Db, call: Call): Db {
    if call.forEffect then Execute(backend, db, call.sql, call.arguments, call.limit).db
    else Fetch(backend, db, call.sql, call.arguments, call.limit).db
  }

  function RunCalls(backend: Backend, db: Db, calls: seq<Call>): Db
    decreases |calls|
  {
    if calls == [] then db else RunCalls(backend, RunCall(backend, db, calls[0]), calls[1..])
  }

  /** The callback that makes these calls and ends so. A step of it is a call. */
  function CallsCallback<T, E>(backend: Backend, calls: seq<Call>, ending: Result<T, E>): Callback<T, E> {
    Callback((db: Db) => (RunCalls(backend, db, calls), ending),
             (db: Db, steps: nat) => RunCalls(backend, db, First(calls, Some(steps))))
  }

  function RunOperation(backend: Backend, db: Db, operation: Operation): Db {
    match operation
    case One(call) => RunCall(backend, db, call)
    case Whole(queries, platform) => Batch(backend, db, queries, platform).db
    case Interactive(calls, ending, platform) => Transact(db, CallsCallback(backend, calls, ending), platform, Itself).0
  }

  function RunHistory(backend: Backend, db: Db, history: seq<Operation>): Db
    decreases |history|
  {
    if history == [] then db else RunHistory(backend, RunOperation(backend, db, history[0]), history[1..])
  }

  /** A connection just opened on some tables: nothing counted, nothing inserted. */
  function Fresh(tables: Tables): Db {
    Db(tables, 0, 0, [])
  }

  /** The counters are what the history of events last set, rolled back or not. */
  predicate Tracked(db: Db) {
    db.changes == LastCount(db.events).GetOr(0) && db.lastRowid == LastRowid(db.events).GetOr(0)
  }

  /** `after` continues the history of `before`, keeping the counters tracked. */
  predicate Continues(before: Db, after: Db) {
    before.events <= after.events && (Tracked(before) ==> Tracked(after))
  }

  lemma ApplyContinues(db: Db, effect: Effect)
    ensures Continues(db, Apply(db, effect))
  {
    LastOfAppended(db.events, EventsOf(effect));
    LastOfEffect(effect);
  }

  lemma {:induction false} DrainContinues(db: Db, script: Script, position: nat, limit: Option<nat>, rows: seq<seq<Value>>)
    requires position <= |script.steps|
    ensures Continues(db, Drain(db, script, position, limit, rows).db)
    decreases |script.steps| - position
  {
    if position == |script.steps| {
      ApplyContinues(db, script.end.effect);
    } else {
      var step := script.steps[position];
      var next := Apply(db, step.effect);
      ApplyContinues(db, step.effect);
      if Wanted(|rows|, limit) {
        var row := ReadRow(step.value);
        if row.Ok? {
          DrainContinues(next, script, position + 1, limit, rows + [row.value]);
        }
      } else {
        DrainContinues(next, script, position + 1, limit, rows);
      }
    }
  }

  lemma FetchContinues(backend: Backend, db: Db, sql: string, arguments: seq<Value>, limit: Option<nat>)
    ensures Continues(db, Fetch(backend, db, sql, arguments, limit).db)
  {
    var sent := ToJsArray(arguments);
    if sent.Ok? {
      match Open(backend, db, sql, sent.value)
      case Refused(effect, _) => ApplyContinues(db, effect);
      case Opened(script) =>
        ApplyContinues(db, script.opening);
        DrainContinues(Apply(db, script.opening), script, 0, limit, []);
    }
  }

  lemma CallContinues(backend: Backend, db: Db, call: Call)
    ensures Continues(db, RunCall(backend, db, call))
  {
    FetchContinues(backend, db, call.sql, call.arguments, call.limit);
    ExecuteLeaves(backend, db, call.sql, call.arguments, call.limit);
  }

  /** Reading the counters changes nothing, so `execute` leaves what `fetch` leaves, even when it fails. */
  lemma ExecuteLeaves(backend: Backend, db: Db, sql: string, arguments: seq<Value>, limit: Option<nat>)
    ensures Execute(backend, db, sql, arguments, limit).db == Fetch(backend, db, sql, arguments, limit).db
  {
    CountersReadExactly(backend, Fetch(backend, db, sql, arguments, limit).db);
  }

  /** A call leaves what its fetch leaves, whether it is made for its effect or for its rows. */
  lemma CallLeavesItsFetch(backend: Backend, db: Db, call: Call)
    ensures RunCall(backend, db, call) == Fetch(backend, db, call.sql, call.arguments, call.limit).db
  {
    ExecuteLeaves(backend, db, call.sql, call.arguments, call.limit);
  }

  /** A history is its operations one after another: what comes later starts where what came before ended. */
  lemma {:induction false} HistoriesCompose(backend: Backend, db: Db, first: seq<Operation>, second: seq<Operation>)
    ensures RunHistory(backend, db, first + second) == RunHistory(backend, RunHistory(backend, db, first), second)
    decreases |first|
  {
    if first == [] {
      assert first + second == second;
    } else {
      assert (first + second)[0] == first[0] && (first + second)[1..] == first[1..] + second;
      HistoriesCompose(backend, RunOperation(backend, db, first[0]), first[1..], second);
    }
  }

  lemma {:induction false} CallsContinue(backend: Backend, db: Db, calls: seq<Call>)
    ensures Continues(db, RunCalls(backend, db, calls))
    decreases |calls|
  {
    if calls == [] {
    } else {
      CallContinues(backend, db, calls[0]);
      CallsContinue(backend, RunCall(backend, db, calls[0]), calls[1..]);
    }
  }

  lemma {:induction false} StatementsContinue(backend: Backend, db: Db, statements: seq<Prepared>)
    ensures Continues(db, RunAll(backend, db, statements).db)
    decreases |statements|
  {
    if statements == [] {
    } else {
      var s := statements[0];
      FetchContinues(backend, db, s.sql, s.arguments, None);
      ExecuteLeaves(backend, db, s.sql, s.arguments, None);
      StatementsContinue(backend, Execute(backend, db, s.sql, s.arguments, None).db, statements[1..]);
    }
  }

  lemma TransactionContinues<T, E>(db: Db, callback: Callback<T, E>, platform: Platform, convert: Error -> E)
    requires Continues(db, callback.run(db).0) && forall steps: nat :: Continues(db, callback.until(db, steps))
    ensures Continues(db, Transact(db, callback, platform, convert).0)
  {
  }

  /** Every operation continues the history, whatever it ends in. */
  lemma OperationContinues(backend: Backend, db: Db, operation: Operation)
    ensures Continues(db, RunOperation(backend, db, operation))
  {
    match operation
    case One(call) => CallContinues(backend, db, call);
    case Whole(queries, platform) =>
      var taken := TakeAll(queries);
      if taken.Ok? {
        StatementsContinue(backend, db, taken.value);
        forall steps: nat
          ensures Continues(db, BatchCallback(backend, taken.value).until(db, steps))
        {
          StatementsContinue(backend, db, First(taken.value, Some(steps)));
        }
        TransactionContinues(db, BatchCallback(backend, taken.value), platform, Itself);
      }
    case Interactive(calls, ending, platform) =>
      CallsContinue(backend, db, calls);
      forall steps: nat
        ensures Continues(db, CallsCallback(backend, calls, ending).until(db, steps))
      {
        CallsContinue(backend, db, First(calls, Some(steps)));
      }
      TransactionContinues(db, CallsCallback(backend, calls, ending), platform, Itself);
  }

  /** The invariant of every history: the counters are what was last set in it, including by statements since rolled back. */
  lemma {:induction false} HistoryIsTracked(backend: Backend, db: Db, history: seq<Operation>)
    requires Tracked(db)
    ensures Tracked(RunHistory(backend, db, history)) && db.events <= RunHistory(backend, db, history).events
    decreases |history|
  {
    if history == [] {
    } else {
      OperationContinues(backend, db, history[0]);
      HistoryIsTracked(backend, RunOperation(backend, db, history[0]), history[1..]);
    }
  }

  /**
   No stale counts, over any history of a connection: an `execute` that succeeds after it reports nothing if
   its statement wrote nothing; its own count, if its statement set one; and as rowid that of the last insert
   the connection has made, its own if it made one. Earlier inserts are remembered even when rolled back.
   */
  lemma NoStaleCounts(backend: Backend, tables: Tables, history: seq<Operation>, sql: string, arguments: seq<Value>, limit: Option<nat>)
    ensures var before := RunHistory(backend, Fresh(tables), history);
            var done := Execute(backend, before, sql, arguments, limit);
            done.result.Ok? ==>
              && Ran(backend, before, sql, arguments).Some?
              && NotStale(before, Ran(backend, before, sql, arguments).value, done.db, done.result.value.1)
  {
    var before := RunHistory(backend, Fresh(tables), history);
    HistoryIsTracked(backend, Fresh(tables), history);
    ExecuteReportsTheStatement(backend, before, sql, arguments, limit);
    var ran := Ran(backend, before, sql, arguments);
    if ran.Some? {
      LastOfAppended(before.events, EventsOfAll(EffectsOf(ran.value)));
    }
  }

  /** What a report may hold, in terms of the history before the statement and the one it leaves. */
  predicate NotStale(before: Db, script: Script, after: Db, reported: QueryResult) {
    && after.events == before.events + EventsOfAll(EffectsOf(script))
    && (script.written == 0 ==> reported == QueryResult(0, None))
    && (script.written > 0 ==>
          && reported.lastInsertRowid == Some(LastRowid(after.events).GetOr(0))
          && (reported.lastInsertRowid == OwnRowid(script) <==> OwnRowid(script).Some?)
          && (OwnCount(script).Some? ==> reported.rowsAffected == OwnCount(script).value)
          && (OwnCount(script).None? ==> reported.rowsAffected == LastCount(before.events).GetOr(0)))
  }

  /** Of a transaction's statements or calls, those that the platform lets run. */
  function LetRun<T>(steps: seq<T>, platform: Platform): seq<T> {
    match platform
    case Interrupts(n, _) => First(steps, Some(n))
    case Runs(_) => steps
    case _ => []
  }

  /** What an interactive transaction leaves: what its calls left, when it commits; and otherwise its tables as they were. */
  lemma InteractiveLeaves(backend: Backend, db: Db, calls: seq<Call>, ending: Result<(), Error>, platform: Platform)
    ensures RunOperation(backend, db, Interactive(calls, ending, platform)) ==
              if platform == Runs(None) && ending.Ok? then RunCalls(backend, db, calls)
              else RolledBack(RunCalls(backend, db, LetRun(calls, platform)), db.tables)
  {
    CountersOutliveRollback(db, CallsCallback(backend, calls, ending), platform, Itself);
    TransactionOutcome(db, CallsCallback(backend, calls, ending), platform, Itself);
  }

  /** A failed batch takes its tables back and leaves its counters: what it counted and inserted stays in the history. */
  lemma FailedBatchKeepsCounters(backend: Backend, db: Db, queries: seq<Query>, platform: Platform)
    ensures var done := Batch(backend, db, queries, platform);
            done.result.Err? && TakeAll(queries).Ok? ==>
              done.db == RolledBack(RunAll(backend, db, LetRun(TakeAll(queries).value, platform)).db, db.tables)
  {
    var taken := TakeAll(queries);
    if taken.Ok? && taken.value != [] {
      CountersOutliveRollback(db, BatchCallback(backend, taken.value), platform, Itself);
      BatchReaches(backend, db, taken.value, platform);
    }
  }

  lemma BatchReaches(backend: Backend, db: Db, statements: seq<Prepared>, platform: Platform)
    ensures Reached(db, BatchCallback(backend, statements), platform) == RunAll(backend, db, LetRun(statements, platform)).db
  {
    if platform.Interrupts? {
      CallbackUntil(backend, db, statements, platform.steps);
    } else if platform.Runs? {
      CallbackResult(backend, db, statements);
    } else {
      NothingRun(backend, db);
    }
  }

  /** So a statement that writes but inserts nothing, run after a failed batch, reports the rowid of an insert that was undone. */
  lemma AnUndoneRowidIsReported(backend: Backend, db: Db, queries: seq<Query>, platform: Platform, sql: string, arguments: seq<Value>,
                                limit: Option<nat>)
    ensures var failed := Batch(backend, db, queries, platform);
            var done, ran := Execute(backend, failed.db, sql, arguments, limit), Ran(backend, failed.db, sql, arguments);
            failed.result.Err? && TakeAll(queries).Ok? && done.result.Ok? && ran.Some? && ran.value.written > 0 && OwnRowid(ran.value).None? ==>
              && failed.db.tables == db.tables
              && done.result.value.1.lastInsertRowid == Some(RunAll(backend, db, LetRun(TakeAll(queries).value, platform)).db.lastRowid)
  {
    FailedBatchKeepsCounters(backend, db, queries, platform);
    OlderRowidReported(backend, Batch(backend, db, queries, platform).db, sql, arguments, limit);
  }

  /** A statement that writes one row and returns none, inserting it or not. */
  function Writing(tables: Tables, inserted: Option<Int64>): Script {
    Script([], Effect(tables, Some(1), inserted), [], Finishes(Effect(tables, None, None)), 1)
  }

  lemma WritingLeaves(db: Db, tables: Tables, inserted: Option<Int64>)
    ensures var after := ApplyAll(db, EffectsOf(Writing(tables, inserted)));
            after.tables == tables && after.changes == 1 && after.lastRowid == inserted.GetOr(db.lastRowid)
    ensures OwnCount(Writing(tables, inserted)) == Some(1) && OwnRowid(Writing(tables, inserted)) == inserted
  {
    var script := Writing(tables, inserted);
    var first, last := script.opening, script.end.effect;
    assert EffectsOf(script) == [first, last];
    assert [first, last][1..] == [last] && [last][1..] == [];
    assert EventsOf(last) == [];
    assert EventsOfAll([last]) == [];
    assert EventsOfAll([first, last]) == EventsOf(first);
    LastOfEffect(first);
    CountersAfterAll(db, [first, last]);
  }

  /** Executing it does that, and reports it when the counters can be read. */
  lemma WritingExecuted(backend: Backend, db: Db, sql: string, tables: Tables, inserted: Option<Int64>)
    requires Ran(backend, db, sql, []) == Some(Writing(tables, inserted))
    ensures var done := Execute(backend, db, sql, [], None);
            && done.db == ApplyAll(db, EffectsOf(Writing(tables, inserted)))
            && (backend.probe(done.db).Answers? && Safe(done.db.lastRowid) ==> done.result.Ok?)
  {
    var script := Writing(tables, inserted);
    assert Map((step: Step) => ReadRow(step.value), []) == [] && Map(ReadName, []) == [];
    assert ReadNames([]) == Ok([]) && ReadSteps([]) == Ok([]) && BuildRows([], []) == Ok([]);
    WritingLeaves(db, tables, inserted);
    FetchIsPlain(backend, db, sql, []);
    ExecuteLeaves(backend, db, sql, [], None);
    ExecuteSucceedsExactly(backend, db, sql, []);
  }

  lemma OneStatement(backend: Backend, db: Db, statement: Prepared)
    ensures RunAll(backend, db, [statement]).db == Execute(backend, db, statement.sql, statement.arguments, None).db
  {
    assert [statement][1..] == [];
  }

  lemma OneQueryTaken(sql: string)
    ensures TakeAll([Query(sql, Ok(None))]) == Ok([Prepared(sql, [])])
  {
    TakenInOrder([Query(sql, Ok(None))]);
    assert TakeAll([Query(sql, Ok(None))]).value == [Prepared(sql, [])];
  }

  lemma UncommittedTransaction<T, E>(db: Db, callback: Callback<T, E>, reason: string, convert: Error -> E)
    ensures Transact(db, callback, Runs(Some(reason)), convert).0 == RolledBack(callback.run(db).0, db.tables)
  {
  }

  lemma UncommittedBatch(backend: Backend, db: Db, queries: seq<Query>, statements: seq<Prepared>, reason: string)
    requires TakeAll(queries) == Ok(statements) && statements != []
    ensures Batch(backend, db, queries, Runs(Some(reason))).db == RolledBack(RunAll(backend, db, statements).db, db.tables)
  {
    UncommittedTransaction(db, BatchCallback(backend, statements), reason, Itself);
    CallbackResult(backend, db, statements);
  }

  /** What a batch of one statement without arguments leaves when storage fails to commit it. */
  function Uncommitted(backend: Backend, db: Db, sql: string, reason: string): Db {
    Batch(backend, db, [Query(sql, Ok(None))], Runs(Some(reason))).db
  }

  lemma UncommittedLeaves(backend: Backend, db: Db, sql: string, reason: string)
    ensures Uncommitted(backend, db, sql, reason) == RolledBack(RunAll(backend, db, [Prepared(sql, [])]).db, db.tables)
  {
    OneQueryTaken(sql);
    UncommittedBatch(backend, db, [Query(sql, Ok(None))], [Prepared(sql, [])], reason);
  }

  /** The insert is undone, and its rowid is not. */
  lemma InsertUndone(backend: Backend, db: Db, sql: string, reason: string, inserted: Tables, rowid: Int64)
    requires Ran(backend, db, sql, []) == Some(Writing(inserted, Some(rowid)))
    ensures Uncommitted(backend, db, sql, reason).tables == db.tables && Uncommitted(backend, db, sql, reason).lastRowid == rowid
  {
    UncommittedLeaves(backend, db, sql, reason);
    OneStatement(backend, db, Prepared(sql, []));
    WritingExecuted(backend, db, sql, inserted, Some(rowid));
    WritingLeaves(db, inserted, Some(rowid));
  }

  /** What an update that inserts nothing then reports. */
  lemma UpdateReports(backend: Backend, db: Db, sql: string, updated: Tables)
    requires Ran(backend, db, sql, []) == Some(Writing(updated, None))
    requires backend.probe(ApplyAll(db, EffectsOf(Writing(updated, None)))).Answers? && Safe(db.lastRowid)
    ensures OwnRowid(Writing(updated, None)).None?
    ensures var done := Execute(backend, db, sql, [], None);
            done.result.Ok? && done.result.value.1 == QueryResult(1, Some(db.lastRowid))
  {
    WritingExecuted(backend, db, sql, updated, None);
    WritingLeaves(db, updated, None);
    ExecuteReportsTheStatement(backend, db, sql, [], None);
  }

  const INSERT_SQL := "INSERT"
  const UPDATE_SQL := "UPDATE"

  /** A storage that knows one insert and one update. */
  function OneInsert(inserted: Tables, updated: Tables, rowid: Int64): Backend {
    Backend((db: Db, sql: string, arguments: seq<JsValue>) =>
              Opened(if sql == INSERT_SQL then Writing(inserted, Some(rowid)) else Writing(updated, None)),
            (db: Db) => Answers("changes()", "last_insert_rowid()"))
  }

  lemma InsertAndUpdateOpen(inserted: Tables, updated: Tables, rowid: Int64, db: Db)
    ensures Ran(OneInsert(inserted, updated, rowid), db, INSERT_SQL, []) == Some(Writing(inserted, Some(rowid)))
    ensures Ran(OneInsert(inserted, updated, rowid), db, UPDATE_SQL, []) == Some(Writing(updated, None))
    ensures OneInsert(inserted, updated, rowid).probe(db).Answers?
  {
    assert ToJsArray([]) == Ok([]);
  }

  /**
   A history: on a new connection, a batch inserts a row and storage fails to commit it. An update after it, which
   inserts nothing, reports that row's rowid as its last insert, though no table has changed.
   */
  lemma AnInsertThatNeverWasIsReported(inserted: Tables, updated: Tables, rowid: Int64, tables: Tables, reason: string)
    requires Safe(rowid)
    ensures var backend := OneInsert(inserted, updated, rowid);
            var before := RunHistory(backend, Fresh(tables), [Whole([Query(INSERT_SQL, Ok(None))], Runs(Some(reason)))]);
            var done := Execute(backend, before, UPDATE_SQL, [], None);
            && before.tables == tables
            && Ran(backend, before, UPDATE_SQL, []) == Some(Writing(updated, None)) && OwnRowid(Writing(updated, None)).None?
            && done.result.Ok? && done.result.value.1 == QueryResult(1, Some(rowid))
  {
    var backend, operation := OneInsert(inserted, updated, rowid), Whole([Query(INSERT_SQL, Ok(None))], Runs(Some(reason)));
    assert [operation][1..] == [];
    var before := Uncommitted(backend, Fresh(tables), INSERT_SQL, reason);
    InsertAndUpdateOpen(inserted, updated, rowid, Fresh(tables));
    InsertUndone(backend, Fresh(tables), INSERT_SQL, reason, inserted, rowid);
    InsertAndUpdateOpen(inserted, updated, rowid, before);
    InsertAndUpdateOpen(inserted, updated, rowid, ApplyAll(before, EffectsOf(Writing(updated, None))));
    UpdateReports(backend, before, UPDATE_SQL, updated);
  }
}
