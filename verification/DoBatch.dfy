/** The Durable Object batch: statements run in order inside one transaction, so that a failing one undoes the rest. */
module DoBatch {
  import opened Wrappers
  import opened Values
  import opened Errors
  import opened ErrorText
  import opened JsBoundary
  import opened Rows
  import opened Results
  import opened Storage
  import opened Queries
  import opened DoDriver
  import opened DoLaws
  import opened DoTransaction
  import Statements = DoStatements

  /** The statements one after another, stopping at the first that fails. */
  function RunAll(backend: Backend, db: Db, statements: seq<Prepared>): Done<seq<BatchResult>>
    decreases |statements|
  {
    if statements == [] then Done(db, Ok([]))
    else
      var done := Execute(backend, db, statements[0].sql, statements[0].arguments, None);
      match done.result
      case Err(error) => Done(done.db, Err(error))
      case Ok((rows, result)) => After([BatchResult(rows, result)], RunAll(backend, done.db, statements[1..]))
  }

  /** The outcome of the statements left, after those whose results are given. */
  function After(results: seq<BatchResult>, rest: Done<seq<BatchResult>>): Done<seq<BatchResult>> {
    match rest.result
    case Ok(more) => Done(rest.db, Ok(results + more))
    case Err(error) => rest
  }

  /** The batch's callback, of which a step is a statement. */
  function BatchCallback(backend: Backend, statements: seq<Prepared>): Callback<seq<BatchResult>, Error> {
    Callback((db: Db) => var done := RunAll(backend, db, statements); (done.db, done.result),
             (db: Db, steps: nat) => RunAll(backend, db, First(statements, Some(steps))).db)
  }

  /** The conversion of the driver's error into the callback's, which are the same type here. */
  function Itself(error: Error): Error {
    error
  }

  /** A whole batch. */
  function Batch(backend: Backend, db: Db, queries: seq<Query>, platform: Platform): Done<seq<BatchResult>> {
    match TakeAll(queries)
    case Err(error) => Done(db, Err(error))
    case Ok(statements) =>
      if statements == [] then Done(db, Ok([]))
      else
        var (after, result) := Transact(db, BatchCallback(backend, statements), platform, Itself);
        Done(after, result)
  }

  /** The batch's transaction callback, on the storage object. */
  method RunStatements(storage: SqlStorage, statements: seq<Prepared>) returns (r: Result<seq<BatchResult>, Error>)
    modifies storage
    ensures Done(storage.db, r) == RunAll(storage.backend, old(storage.db), statements)
  {
    var results: seq<BatchResult> := [];
    assert statements[0..] == statements;
    AfterNothing(RunAll(storage.backend, storage.db, statements));
    for i := 0 to |statements|
      invariant After(results, RunAll(storage.backend, storage.db, statements[i..])) == RunAll(storage.backend, old(storage.db), statements)
    {
      RunOne(storage.backend, storage.db, statements, i, results);
      var executed := Statements.Execute(storage, statements[i].sql, statements[i].arguments, None);
      if executed.Err? {
        return Err(executed.error);
      }
      var (rows, result) := executed.value;
      results := results + [BatchResult(rows, result)];
    }
    assert results + [] == results;
    return Ok(results);
  }

  /** One statement of the run. */
  lemma RunOne(backend: Backend, db: Db, statements: seq<Prepared>, i: nat, results: seq<BatchResult>)
    requires i < |statements|
    ensures var done := Execute(backend, db, statements[i].sql, statements[i].arguments, None);
            After(results, RunAll(backend, db, statements[i..])) ==
              match done.result
              case Err(error) => Done(done.db, Err(error))
              case Ok((rows, result)) => After(results + [BatchResult(rows, result)], RunAll(backend, done.db, statements[i + 1..]))
  {
    var done := Execute(backend, db, statements[i].sql, statements[i].arguments, None);
    assert statements[i..][0] == statements[i] && statements[i..][1..] == statements[i + 1..];
    if done.result.Ok? {
      AfterAfter(results, [BatchResult(done.result.value.0, done.result.value.1)], RunAll(backend, done.db, statements[i + 1..]));
    }
  }

  lemma AfterNothing(rest: Done<seq<BatchResult>>)
    ensures After([], rest) == rest
  {
    if rest.result.Ok? {
      assert [] + rest.result.value == rest.result.value;
    }
  }

  lemma AfterAfter(a: seq<BatchResult>, b: seq<BatchResult>, rest: Done<seq<BatchResult>>)
    ensures After(a, After(b, rest)) == After(a + b, rest)
  {
    if rest.result.Ok? {
      assert a + (b + rest.result.value) == (a + b) + rest.result.value;
    }
  }

  /** The statements inside a transaction. */
  method RunInTransaction(storage: SqlStorage, statements: seq<Prepared>, platform: Platform)
    returns (r: Result<seq<BatchResult>, Error>)
    modifies storage
    ensures (storage.db, r) == Transact(old(storage.db), BatchCallback(storage.backend, statements), platform, Itself)
  {
    var tx := new OpenTransaction<seq<BatchResult>, Error>(storage);
    match platform {
      case Interrupts(steps, _) =>
        var _ := RunStatements(storage, First(statements, Some(steps)));
        assert storage.db == BatchCallback(storage.backend, statements).until(old(storage.db), steps);
      case Runs(_) =>
        var result := RunStatements(storage, statements);
        assert (storage.db, result) == BatchCallback(storage.backend, statements).run(old(storage.db));
        tx.Report(result);
      case _ =>
    }
    var committed := tx.Finish(platform);
    var outcome := tx.Take();
    r := Reconcile(committed, outcome, Itself);
  }

  method RunBatch(storage: SqlStorage, queries: seq<Query>, platform: Platform) returns (r: Result<seq<BatchResult>, Error>)
    modifies storage
    ensures Done(storage.db, r) == Batch(storage.backend, old(storage.db), queries, platform)
  {
    var taken := TakeAll(queries);
    if taken.Err? {
      return Err(taken.error);
    }
    if taken.value == [] {
      return Ok([]);
    }
    r := RunInTransaction(storage, taken.value, platform);
  }

  /** What each statement did. */
  method ExecuteBatch(storage: SqlStorage, queries: seq<Query>, platform: Platform) returns (r: Result<seq<QueryResult>, Error>)
    modifies storage
    ensures storage.db == Batch(storage.backend, old(storage.db), queries, platform).db
    ensures r == match Batch(storage.backend, old(storage.db), queries, platform).result
                 case Ok(results) => Ok(Map((one: BatchResult) => one.result, results))
                 case Err(error) => Err(error)
  {
    var results := RunBatch(storage, queries, platform);
    if results.Err? {
      return Err(results.error);
    }
    return Ok(Map((one: BatchResult) => one.result, results.value));
  }

  /** The items of the stream of results: one per statement, or the one error. */
  method FetchBatch(storage: SqlStorage, queries: seq<Query>, platform: Platform) returns (items: seq<Result<BatchResult, Error>>)
    modifies storage
    ensures storage.db == Batch(storage.backend, old(storage.db), queries, platform).db
    ensures items == match Batch(storage.backend, old(storage.db), queries, platform).result
                     case Ok(results) => Map((one: BatchResult) => Ok(one), results)
                     case Err(error) => [Err(error)]
  {
    var results := RunBatch(storage, queries, platform);
    if results.Err? {
      return [Err(results.error)];
    }
    return Map((one: BatchResult) => Ok(one), results.value);
  }

  // ---- The batch against the statements simply run in order

  /** The statements simply run in order, with nothing in between: the database and each one's rows, or nothing when one fails. */
  function PlainAll(backend: Backend, db: Db, statements: seq<Prepared>): Option<(Db, seq<seq<Row>>)>
    decreases |statements|
  {
    if statements == [] then Some((db, []))
    else
      match Plain(backend, db, statements[0].sql, statements[0].arguments)
      case None => None
      case Some((after, rows)) =>
        match PlainAll(backend, after, statements[1..])
        case None => None
        case Some((end, more)) => Some((end, [rows] + more))
  }

  /** Whether the counters can be read after each statement that wrote. */
  predicate CountersReadableAll(backend: Backend, db: Db, statements: seq<Prepared>)
    decreases |statements|
  {
    statements == [] ||
    (&& CountersReadable(backend, db, statements[0].sql, statements[0].arguments)
     && match Plain(backend, db, statements[0].sql, statements[0].arguments)
        case None => true
        case Some((after, _)) => CountersReadableAll(backend, after, statements[1..]))
  }

  /**
   Reading the counters after every statement that wrote is invisible: the statements succeed exactly when
   they do without it and the counters can be read, and then leave the same database and return the same
   rows, one result per statement, in order.
   */
  lemma {:induction false} ProbesAreTransparent(backend: Backend, db: Db, statements: seq<Prepared>)
    ensures Transparent(backend, db, statements)
    decreases |statements|
  {
    if statements == [] {
    } else {
      var first := Plain(backend, db, statements[0].sql, statements[0].arguments);
      if first.Some? {
        ProbesAreTransparent(backend, first.value.0, statements[1..]);
      }
      TransparentStep(backend, db, statements);
    }
  }

  /** Whether running the statements is running them without reading the counters, but for when the counters cannot be read. */
  predicate Transparent(backend: Backend, db: Db, statements: seq<Prepared>) {
    var done := RunAll(backend, db, statements);
    var plain := PlainAll(backend, db, statements);
    && (done.result.Ok? <==> plain.Some? && CountersReadableAll(backend, db, statements))
    && (done.result.Ok? ==> SameRun(done, plain))
  }

  lemma TransparentStep(backend: Backend, db: Db, statements: seq<Prepared>)
    requires statements != []
    requires var first := Plain(backend, db, statements[0].sql, statements[0].arguments);
             first.Some? ==> Transparent(backend, first.value.0, statements[1..])
    ensures Transparent(backend, db, statements)
  {
    ExecuteSucceedsExactly(backend, db, statements[0].sql, statements[0].arguments);
  }

  /** The same database, and for each statement the same rows. */
  predicate SameRun(done: Done<seq<BatchResult>>, plain: Option<(Db, seq<seq<Row>>)>) {
    && done.result.Ok? && plain.Some? && done.db == plain.value.0
    && |done.result.value| == |plain.value.1|
    && forall i | 0 <= i < |plain.value.1| :: done.result.value[i].rows == plain.value.1[i]
  }

  lemma {:induction false} OneRowsPerStatement(backend: Backend, db: Db, statements: seq<Prepared>)
    requires PlainAll(backend, db, statements).Some?
    ensures |PlainAll(backend, db, statements).value.1| == |statements|
    decreases |statements|
  {
    if statements == [] {
    } else {
      OneRowsPerStatement(backend, Plain(backend, db, statements[0].sql, statements[0].arguments).value.0, statements[1..]);
    }
  }

  /** Running more statements after a run, unless it failed. */
  function Then(backend: Backend, done: Done<seq<BatchResult>>, more: seq<Prepared>): Done<seq<BatchResult>> {
    match done.result
    case Err(_) => done
    case Ok(results) => After(results, RunAll(backend, done.db, more))
  }

  /** A run of two lists is a run of the second after a run of the first: after a failure none of the second is run. */
  lemma {:induction false} RunsCompose(backend: Backend, db: Db, first: seq<Prepared>, second: seq<Prepared>)
    ensures RunAll(backend, db, first + second) == Then(backend, RunAll(backend, db, first), second)
    decreases |first|
  {
    if first == [] {
      assert first + second == second;
      AfterNothing(RunAll(backend, db, second));
    } else {
      var all := first + second;
      assert all[0] == first[0] && all[1..] == first[1..] + second;
      var done := Execute(backend, db, first[0].sql, first[0].arguments, None);
      if done.result.Ok? {
        RunsCompose(backend, done.db, first[1..], second);
        var rest := RunAll(backend, done.db, first[1..]);
        if rest.result.Ok? {
          AfterAfter([BatchResult(done.result.value.0, done.result.value.1)], rest.result.value, RunAll(backend, rest.db, second));
        }
      }
    }
  }

  lemma {:induction false} OneResultPerStatement(backend: Backend, db: Db, statements: seq<Prepared>)
    ensures var done := RunAll(backend, db, statements); done.result.Ok? ==> |done.result.value| == |statements|
    decreases |statements|
  {
    if statements == [] {
    } else {
      OneResultPerStatement(backend, Execute(backend, db, statements[0].sql, statements[0].arguments, None).db, statements[1..]);
    }
  }

  /** Whether there is a result per statement, and result `i` is what statement `i` does from where those before it leave the database. */
  predicate ResultIs(backend: Backend, db: Db, statements: seq<Prepared>, i: nat, results: seq<BatchResult>)
    requires i < |statements|
  {
    var before := RunAll(backend, db, statements[..i]);
    && |results| == |statements| && before.result.Ok?
    && Execute(backend, before.db, statements[i].sql, statements[i].arguments, None).result == Ok((results[i].rows, results[i].result))
  }

  /** Every result of a batch is what its own statement did, from where the ones before it left the database. */
  lemma ResultsAreTheStatements(backend: Backend, db: Db, statements: seq<Prepared>, i: nat)
    requires i < |statements|
    ensures var done := RunAll(backend, db, statements); done.result.Ok? ==> ResultIs(backend, db, statements, i, done.result.value)
  {
    var before := RunAll(backend, db, statements[..i]);
    assert statements[..i] + statements[i..] == statements;
    RunsCompose(backend, db, statements[..i], statements[i..]);
    OneResultPerStatement(backend, db, statements);
    OneResultPerStatement(backend, db, statements[..i]);
    if before.result.Ok? {
      RunOne(backend, before.db, statements, i, before.result.value);
    }
  }

  /** Whether statement `k` is the first to fail, and ends the run with its error and the database it left. */
  predicate FailsFirstAt(backend: Backend, db: Db, statements: seq<Prepared>, k: nat)
    requires k < |statements|
  {
    var before := RunAll(backend, db, statements[..k]);
    var failed := Execute(backend, before.db, statements[k].sql, statements[k].arguments, None);
    && before.result.Ok? && failed.result.Err?
    && RunAll(backend, db, statements) == Done(failed.db, Err(failed.result.error))
  }

  /** A run that fails does so at its first failing statement. */
  lemma {:induction false} StopsAtTheFirstFailure(backend: Backend, db: Db, statements: seq<Prepared>)
    requires RunAll(backend, db, statements).result.Err?
    ensures exists k | 0 <= k < |statements| :: FailsFirstAt(backend, db, statements, k)
    decreases |statements|
  {
    var s, rest := statements[0], statements[1..];
    var done := Execute(backend, db, s.sql, s.arguments, None);
    if done.result.Err? {
      assert statements[..0] == [];
      assert FailsFirstAt(backend, db, statements, 0);
    } else {
      StopsAtTheFirstFailure(backend, done.db, rest);
      var j :| 0 <= j < |rest| && FailsFirstAt(backend, done.db, rest, j);
      FailsLater(backend, db, statements, j);
    }
  }

  lemma FailsLater(backend: Backend, db: Db, statements: seq<Prepared>, j: nat)
    requires j + 1 < |statements|
    ensures var first := Execute(backend, db, statements[0].sql, statements[0].arguments, None);
            first.result.Ok? && FailsFirstAt(backend, first.db, statements[1..], j) ==> FailsFirstAt(backend, db, statements, j + 1)
  {
    assert statements[..j + 1][0] == statements[0] && statements[..j + 1][1..] == statements[1..][..j];
  }

  /**
   Atomicity over every failure point: a batch that returns an error, wherever it came from, leaves the
   tables as they were, and untouched in every respect when a bind had failed. It succeeds exactly when all
   binds had succeeded and, unless it is empty, the platform ran and committed it, every statement succeeds,
   and the counters could be read; and then it is the statements simply run in order.
   */
  lemma BatchIsAtomic(backend: Backend, db: Db, queries: seq<Query>, platform: Platform)
    ensures var done := Batch(backend, db, queries, platform);
            var taken := TakeAll(queries);
            && (done.result.Err? ==> done.db.tables == db.tables)
            && (taken.Err? ==> done == Done(db, Err(taken.error)))
            && (done.result.Ok? <==>
                  && taken.Ok?
                  && (queries == [] ||
                      (&& platform == Runs(None) && PlainAll(backend, db, taken.value).Some?
                       && CountersReadableAll(backend, db, taken.value))))
            && (done.result.Ok? ==> SameRun(done, PlainAll(backend, db, taken.value)) && |done.result.value| == |queries|)
  {
    TakenInOrder(queries);
    var taken := TakeAll(queries);
    if taken.Ok? && queries != [] {
      TransactionOutcome(db, BatchCallback(backend, taken.value), platform, Itself);
      ProbesAreTransparent(backend, db, taken.value);
      if PlainAll(backend, db, taken.value).Some? {
        OneRowsPerStatement(backend, db, taken.value);
      }
    }
  }

  /** Whether statement `k` is the first to fail, with this error: those before it, simply run, all succeed, and it fails where they end. */
  ghost predicate FailsWith(backend: Backend, db: Db, statements: seq<Prepared>, k: nat, error: Error)
    requires k < |statements|
  {
    var before := PlainAll(backend, db, statements[..k]);
    && before.Some? && CountersReadableAll(backend, db, statements[..k])
    && ExecuteFails(backend, before.value.0, statements[k].sql, statements[k].arguments, None, error)
  }

  /**
   Whether this is what went wrong first: the first bind that failed; or else, in a transaction that ran to its
   end, the first statement that failed, or storage's failure to commit statements all of which succeeded;
   or else storage's reason for ending a transaction before that.
   */
  ghost predicate IsTheCause(backend: Backend, db: Db, queries: seq<Query>, platform: Platform, error: Error) {
    var taken := TakeAll(queries);
    if taken.Err? then BindsFail(queries, error) else EndedBy(backend, db, taken.value, platform, error)
  }

  /** What can end a transaction of these statements with an error. */
  ghost predicate EndedBy(backend: Backend, db: Db, statements: seq<Prepared>, platform: Platform, error: Error) {
    match platform
    case ResolvesUnrun => error == Protocol(CallbackNeverRan)
    case RejectsUnrun(reason) => error == Protocol(TransactionFailed(reason))
    case Interrupts(_, reason) => error == Protocol(TransactionFailed(reason))
    case Runs(commitFailure) =>
      || FailedIn(backend, db, statements, error)
      || (&& PlainAll(backend, db, statements).Some? && CountersReadableAll(backend, db, statements) && commitFailure.Some?
          && error == Protocol(TransactionFailed(commitFailure.value)))
  }

  /** Whether some statement is the first to fail, with this error. */
  ghost predicate FailedIn(backend: Backend, db: Db, statements: seq<Prepared>, error: Error) {
    exists k | 0 <= k < |statements| :: FailsWith(backend, db, statements, k, error)
  }

  /** Every error a batch returns is of the first thing that went wrong. */
  lemma BatchErrorIsTheCause(backend: Backend, db: Db, queries: seq<Query>, platform: Platform)
    ensures var result := Batch(backend, db, queries, platform).result;
            result.Err? ==> IsTheCause(backend, db, queries, platform, result.error)
  {
    FailedBindIsTheError(queries);
    if TakeAll(queries).Ok? {
      var statements := TakeAll(queries).value;
      var callback := BatchCallback(backend, statements);
      CallbackResult(backend, db, statements);
      TransactionErrors(db, callback, platform);
      var r := Transact(db, callback, platform, Itself).1;
      if r.Err? {
        ErrorEnds(backend, db, statements, platform, callback.run(db).1, r.error);
      }
    }
  }

  lemma CallbackResult(backend: Backend, db: Db, statements: seq<Prepared>)
    ensures BatchCallback(backend, statements).run(db) == (RunAll(backend, db, statements).db, RunAll(backend, db, statements).result)
  {
  }

  lemma CallbackUntil(backend: Backend, db: Db, statements: seq<Prepared>, steps: nat)
    ensures BatchCallback(backend, statements).until(db, steps) == RunAll(backend, db, First(statements, Some(steps))).db
  {
  }

  lemma NothingRun(backend: Backend, db: Db)
    ensures RunAll(backend, db, []) == Done(db, Ok([]))
  {
  }

  /** Whether a transaction whose callback ends so, if it ends, can fail with this error. */
  predicate IsTransactionError<T>(platform: Platform, result: Result<T, Error>, error: Error) {
    match platform
    case ResolvesUnrun => error == Protocol(CallbackNeverRan)
    case RejectsUnrun(reason) => error == Protocol(TransactionFailed(reason))
    case Interrupts(_, reason) => error == Protocol(TransactionFailed(reason))
    case Runs(commitFailure) =>
      if result.Err? then error == result.error else commitFailure.Some? && error == Protocol(TransactionFailed(commitFailure.value))
  }

  lemma TransactionErrors<T>(db: Db, callback: Callback<T, Error>, platform: Platform)
    ensures var r := Transact(db, callback, platform, Itself).1; r.Err? ==> IsTransactionError(platform, callback.run(db).1, r.error)
  {
  }

  lemma ErrorEnds(backend: Backend, db: Db, statements: seq<Prepared>, platform: Platform, result: Result<seq<BatchResult>, Error>, error: Error)
    ensures result == RunAll(backend, db, statements).result && IsTransactionError(platform, result, error) ==>
              EndedBy(backend, db, statements, platform, error)
  {
    if result == RunAll(backend, db, statements).result && IsTransactionError(platform, result, error) {
      if platform.Runs? && result.Err? {
        RunErrors(backend, db, statements, error);
      } else if platform.Runs? {
        ProbesAreTransparent(backend, db, statements);
      }
    }
  }

  lemma RunErrors(backend: Backend, db: Db, statements: seq<Prepared>, error: Error)
    requires RunAll(backend, db, statements).result == Err(error)
    ensures FailedIn(backend, db, statements, error)
  {
    StopsAtTheFirstFailure(backend, db, statements);
    var k :| 0 <= k < |statements| && FailsFirstAt(backend, db, statements, k);
    FailureKept(backend, db, statements, k, error);
  }

  lemma FailureKept(backend: Backend, db: Db, statements: seq<Prepared>, k: nat, error: Error)
    requires k < |statements|
    ensures RunAll(backend, db, statements).result == Err(error) && FailsFirstAt(backend, db, statements, k) ==>
              FailsWith(backend, db, statements, k, error)
  {
    if RunAll(backend, db, statements).result == Err(error) && FailsFirstAt(backend, db, statements, k) {
      var before := RunAll(backend, db, statements[..k]);
      ProbesAreTransparent(backend, db, statements[..k]);
      assert Transparent(backend, db, statements[..k]);
      FailureOf(backend, before.db, statements[k], error, RunAll(backend, db, statements));
    }
  }

  lemma FailureOf(backend: Backend, db: Db, statement: Prepared, error: Error, done: Done<seq<BatchResult>>)
    requires done.result == Err(error)
    ensures var failed := Execute(backend, db, statement.sql, statement.arguments, None);
            failed.result.Err? && done == Done(failed.db, Err(failed.result.error)) ==>
              ExecuteFails(backend, db, statement.sql, statement.arguments, None, error)
  {
    ExecuteExactly(backend, db, statement.sql, statement.arguments, None);
  }
}
