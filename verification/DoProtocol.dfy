/**
 A transaction step by step: the platform starting the callback or not, the callback's queries, its report
 through the slot, and the platform's commit or rollback, in whatever order storage lets them come.
 */
module DoProtocol {
  import opened Wrappers
  import opened Values
  import opened Errors
  import opened JsBoundary
  import opened Storage
  import opened DoTransaction
  import opened DoBatch
  import opened DoHistory

  datatype Phase = Waiting | Running | Reported | Settled

  /** A transaction under way, for a callback that ends with a `V` or an `E`. */
  datatype Tx<V, E> = Tx(phase: Phase, db: Db, before: Tables, slot: Option<Result<V, E>>, committed: Result<(), string>)

  datatype Move<V, E> =
    | Begin
    | Query(call: Call)
    | Report(result: Result<V, E>)
    | Commit
    | RollBack(reason: string)
    | Refuse(reason: string)
    | Skip

  /**
   What storage lets happen next. It commits only a callback that resolved; it may give up on one still running;
   and it puts the tables back when it rolls back.
   */
  function Step<V, E>(backend: Backend, tx: Tx<V, E>, move: Move<V, E>): Option<Tx<V, E>> {
    match (tx.phase, move)
    case (Waiting, Begin) => Some(tx.(phase := Running, before := tx.db.tables))
    case (Waiting, Refuse(reason)) => Some(tx.(phase := Settled, committed := Err(reason)))
    case (Waiting, Skip) => Some(tx.(phase := Settled, committed := Ok(())))
    case (Running, Query(call)) => Some(tx.(db := RunCall(backend, tx.db, call)))
    case (Running, Report(result)) => Some(tx.(phase := Reported, slot := Some(result)))
    case (Running, RollBack(reason)) => Some(UndoneBy(tx, reason))
    case (Reported, Commit) =>
      if tx.slot.Some? && tx.slot.value.Ok? then Some(tx.(phase := Settled, committed := Ok(()))) else None
    case (Reported, RollBack(reason)) => Some(UndoneBy(tx, reason))
    case _ => None
  }

  function UndoneBy<V, E>(tx: Tx<V, E>, reason: string): Tx<V, E> {
    tx.(phase := Settled, db := RolledBack(tx.db, tx.before), committed := Err(reason))
  }

  /** A run of moves, if storage lets each of them happen. */
  function Run<V, E>(backend: Backend, tx: Tx<V, E>, moves: seq<Move<V, E>>): Option<Tx<V, E>>
    decreases |moves|
  {
    if moves == [] then Some(tx)
    else
      match Step(backend, tx, moves[0])
      case None => None
      case Some(next) => Run(backend, next, moves[1..])
  }

  function Start<V, E>(db: Db): Tx<V, E> {
    Tx(Waiting, db, db.tables, None, Ok(()))
  }

  /** What the caller is told at the end. */
  function Answer<V, E>(tx: Tx<V, E>, convert: Error -> E): Result<V, E> {
    Reconcile(tx.committed, tx.slot, convert)
  }

  /** What every reachable state satisfies, for a transaction started on `start` whose queries so far are `calls`. */
  ghost predicate Reachable<V, E>(backend: Backend, start: Db, calls: seq<Call>, tx: Tx<V, E>) {
    && tx.before == start.tables
    && match tx.phase
       case Waiting => tx.db == start && tx.slot.None? && calls == []
       case Running => tx.db == RunCalls(backend, start, calls) && tx.slot.None?
       case Reported => tx.db == RunCalls(backend, start, calls) && tx.slot.Some?
       case Settled =>
         if tx.committed.Err? then tx.db == RolledBack(RunCalls(backend, start, calls), start.tables)
         else if tx.slot.Some? then tx.db == RunCalls(backend, start, calls) && tx.slot.value.Ok?
         else tx.db == start && calls == []
  }

  /** The queries among the moves. */
  function Queries<V, E>(moves: seq<Move<V, E>>): seq<Call> {
    if moves == [] then []
    else (if moves[0].Query? then [moves[0].call] else []) + Queries(moves[1..])
  }

  lemma {:induction false} RunCallsAppended(backend: Backend, db: Db, calls: seq<Call>, call: Call)
    ensures RunCalls(backend, db, calls + [call]) == RunCall(backend, RunCalls(backend, db, calls), call)
    decreases |calls|
  {
    if calls == [] {
      assert [] + [call] == [call] && [call][1..] == [];
    } else {
      assert (calls + [call])[1..] == calls[1..] + [call];
      RunCallsAppended(backend, RunCall(backend, db, calls[0]), calls[1..], call);
    }
  }

  /** Every move keeps the invariant. */
  lemma StepKeepsReachable<V, E>(backend: Backend, start: Db, calls: seq<Call>, tx: Tx<V, E>, move: Move<V, E>)
    requires Reachable(backend, start, calls, tx) && Step(backend, tx, move).Some?
    ensures Reachable(backend, start, calls + Queries([move]), Step(backend, tx, move).value)
  {
    assert [move][1..] == [];
    if move.Query? {
      assert Queries([move]) == [move.call];
      RunCallsAppended(backend, start, calls, move.call);
    } else {
      assert calls + Queries([move]) == calls;
    }
  }

  lemma {:induction false} RunKeepsReachable<V, E>(backend: Backend, start: Db, calls: seq<Call>, tx: Tx<V, E>, moves: seq<Move<V, E>>)
    requires Reachable(backend, start, calls, tx) && Run(backend, tx, moves).Some?
    ensures Reachable(backend, start, calls + Queries(moves), Run(backend, tx, moves).value)
    decreases |moves|
  {
    if moves == [] {
      assert calls + [] == calls;
    } else {
      var next := Step(backend, tx, moves[0]).value;
      StepKeepsReachable(backend, start, calls, tx, moves[0]);
      assert [moves[0]][1..] == [];
      assert (calls + Queries([moves[0]])) + Queries(moves[1..]) == calls + Queries(moves);
      RunKeepsReachable(backend, start, calls + Queries([moves[0]]), next, moves[1..]);
    }
  }

  /** Whether storage lets these moves happen one after another, to the end of the transaction. */
  predicate Settles<V, E>(backend: Backend, db: Db, moves: seq<Move<V, E>>) {
    var end := Run(backend, Start<V, E>(db), moves);
    end.Some? && end.value.phase.Settled?
  }

  /** The transaction at the end of such moves. */
  function Ended<V, E>(backend: Backend, db: Db, moves: seq<Move<V, E>>): Tx<V, E>
    requires Settles(backend, db, moves)
  {
    Run(backend, Start<V, E>(db), moves).value
  }

  /**
   Safety over every run: however a transaction settles, an error leaves the tables as they were; a value is the
   callback's own, told exactly when storage committed it, and leaves the database as its queries, run in order,
   leave it; a callback's error is told unchanged; and storage has never committed a callback that failed.
   */
  lemma TransactionIsSafe<V, E>(backend: Backend, db: Db, moves: seq<Move<V, E>>, convert: Error -> E)
    requires Settles(backend, db, moves)
    ensures var tx := Ended(backend, db, moves);
            var answer := Answer(tx, convert);
            && (answer.Err? ==> tx.db.tables == db.tables)
            && (answer.Ok? <==> tx.committed.Ok? && tx.slot.Some?)
            && (answer.Ok? ==> tx.slot == Some(answer) && tx.db == RunCalls(backend, db, Queries(moves)))
            && (tx.slot.Some? && tx.slot.value.Err? ==> tx.committed.Err? && answer == tx.slot.value)
  {
    RunKeepsReachable(backend, db, [], Start<V, E>(db), moves);
    assert [] + Queries(moves) == Queries(moves);
  }

  /** Over every run, finished or not, the counters follow the history: no rollback takes them back. */
  lemma CountersFollowTheHistory<V, E>(backend: Backend, db: Db, moves: seq<Move<V, E>>)
    requires Run(backend, Start<V, E>(db), moves).Some?
    ensures Continues(db, Run(backend, Start<V, E>(db), moves).value.db)
  {
    RunKeepsReachable(backend, db, [], Start<V, E>(db), moves);
    assert [] + Queries(moves) == Queries(moves);
    CallsContinue(backend, db, Queries(moves));
  }

  // ---- What the caller is told, from the moves alone

  /** What a transaction holds of the moves made so far. */
  ghost predicate Records<V, E>(tx: Tx<V, E>, moves: seq<Move<V, E>>) {
    && (tx.phase.Waiting? || tx.phase.Running? ==> tx.slot.None?)
    && (tx.slot.Some? ==> Report(tx.slot.value) in moves)
    && (forall move | move in moves && move.Report? :: tx.slot == Some(move.result))
    && (Commit in moves <==> tx.phase.Settled? && tx.committed.Ok? && tx.slot.Some?)
    && (Skip in moves <==> tx.phase.Settled? && tx.committed.Ok? && tx.slot.None?)
    && (forall reason :: RollBack(reason) in moves || Refuse(reason) in moves <==> tx.phase.Settled? && tx.committed == Err(reason))
  }

  lemma StepRecords<V, E>(backend: Backend, tx: Tx<V, E>, moves: seq<Move<V, E>>, move: Move<V, E>)
    requires Records(tx, moves) && Step(backend, tx, move).Some?
    ensures Records(Step(backend, tx, move).value, moves + [move])
  {
    assert forall other :: other in moves + [move] <==> other in moves || other == move;
  }

  lemma {:induction false} RunRecords<V, E>(backend: Backend, tx: Tx<V, E>, done: seq<Move<V, E>>, moves: seq<Move<V, E>>)
    requires Records(tx, done) && Run(backend, tx, moves).Some?
    ensures Records(Run(backend, tx, moves).value, done + moves)
    decreases |moves|
  {
    if moves == [] {
      assert done + [] == done;
    } else {
      StepRecords(backend, tx, done, moves[0]);
      assert (done + [moves[0]]) + moves[1..] == done + moves;
      RunRecords(backend, Step(backend, tx, moves[0]).value, done + [moves[0]], moves[1..]);
    }
  }

  /** What the caller must be told when a transaction ended with these moves. */
  ghost predicate ToldOf<V, E>(answer: Result<V, E>, moves: seq<Move<V, E>>, convert: Error -> E) {
    var failed := exists move | move in moves :: move.Report? && move.result.Err?;
    && (forall move | move in moves && move.Report? :: move.result.Err? || Commit in moves ==> answer == move.result)
    && (answer.Ok? <==> Commit in moves)
    && (answer.Ok? || failed ==> Report(answer) in moves)
    && (Skip in moves ==> answer == Err(convert(Protocol(CallbackNeverRan))))
    && (!failed ==>
          forall reason | RollBack(reason) in moves || Refuse(reason) in moves :: answer == Err(convert(Protocol(TransactionFailed(reason)))))
    && (Commit in moves || Skip in moves || exists reason :: RollBack(reason) in moves || Refuse(reason) in moves)
  }

  /**
   The caller is told what happened, over every run: a callback's error, whatever storage gave as its reason; the
   callback's value, exactly when storage committed; and otherwise why storage did not, or that it never began.
   */
  lemma AnswerIsWhatHappened<V, E>(backend: Backend, db: Db, moves: seq<Move<V, E>>, convert: Error -> E)
    requires Settles(backend, db, moves)
    ensures ToldOf(Answer(Ended(backend, db, moves), convert), moves, convert)
  {
    RunRecords(backend, Start<V, E>(db), [], moves);
    assert [] + moves == moves;
    RunKeepsReachable(backend, db, [], Start<V, E>(db), moves);
    var tx := Ended(backend, db, moves);
    if tx.committed.Err? {
      assert RollBack(tx.committed.error) in moves || Refuse(tx.committed.error) in moves;
    }
  }

  // ---- The steps against the one-step transaction

  /** Every settled run is a `Transact` of the queries it ran: the one-step account of a transaction leaves out no run. */
  lemma RunsAreTransactions<V, E>(backend: Backend, db: Db, moves: seq<Move<V, E>>, convert: Error -> E)
    requires Settles(backend, db, moves)
    ensures exists ending: Result<V, E>, platform ::
              Transact(db, CallsCallback(backend, Queries(moves), ending), platform, convert) ==
              (Ended(backend, db, moves).db, Answer(Ended(backend, db, moves), convert))
  {
    RunKeepsReachable(backend, db, [], Start<V, E>(db), moves);
    var calls := Queries(moves);
    assert [] + calls == calls;
    var tx := Ended(backend, db, moves);
    var ending := if tx.slot.Some? then tx.slot.value else Err(convert(Panic));
    var platform :=
      if tx.slot.Some? then Runs(if tx.committed.Ok? then None else Some(tx.committed.error))
      else if tx.committed.Ok? then ResolvesUnrun
      else Interrupts(|calls|, tx.committed.error);
    var callback := CallsCallback(backend, calls, ending);
    assert callback.run(db) == (RunCalls(backend, db, calls), ending);
    assert First(calls, Some(|calls|)) == calls;
    assert callback.until(db, |calls|) == RunCalls(backend, db, calls);
    assert Transact(db, callback, platform, convert) == (tx.db, Answer(tx, convert));
  }

  /** The moves of a one-step transaction. */
  function MovesOf<V, E>(calls: seq<Call>, ending: Result<V, E>, platform: Platform): seq<Move<V, E>> {
    match platform
    case ResolvesUnrun => [Skip]
    case RejectsUnrun(reason) => [Refuse(reason)]
    case Interrupts(steps, reason) => [Begin] + (Map(call => Query(call), First(calls, Some(steps))) + [RollBack(reason)])
    case Runs(commitFailure) => [Begin] + (Map(call => Query(call), calls) + [Report(ending), EndOf(ending, commitFailure)])
  }

  function EndOf<V, E>(ending: Result<V, E>, commitFailure: Option<string>): Move<V, E> {
    if ending.Err? then RollBack(CALLBACK_FAILED)
    else match commitFailure
      case None => Commit
      case Some(reason) => RollBack(reason)
  }

  lemma {:induction false} RunQueries<V, E>(backend: Backend, tx: Tx<V, E>, calls: seq<Call>, more: seq<Move<V, E>>)
    requires tx.phase.Running?
    ensures Run(backend, tx, Map(call => Query(call), calls) + more) == Run(backend, tx.(db := RunCalls(backend, tx.db, calls)), more)
    decreases |calls|
  {
    var moves := Map(call => Query(call), calls) + more;
    if calls == [] {
      assert moves == more;
    } else {
      assert moves[0] == Query(calls[0]);
      assert moves[1..] == Map(call => Query(call), calls[1..]) + more;
      RunQueries(backend, tx.(db := RunCall(backend, tx.db, calls[0])), calls[1..], more);
    }
  }

  lemma LastMove<V, E>(backend: Backend, tx: Tx<V, E>, move: Move<V, E>)
    ensures Run(backend, tx, [move]) == Step(backend, tx, move)
  {
    assert [move][1..] == [];
  }

  /** Whether these moves settle a transaction so. */
  ghost predicate SettlesAs<V, E>(backend: Backend, db: Db, moves: seq<Move<V, E>>, end: Db, slot: Option<Result<V, E>>,
                                  committed: Result<(), string>) {
    && Settles(backend, db, moves)
    && var tx := Ended(backend, db, moves); tx.db == end && tx.slot == slot && tx.committed == committed
  }

  lemma InterruptedRun<V, E>(backend: Backend, db: Db, calls: seq<Call>, ending: Result<V, E>, steps: nat, reason: string)
    ensures SettlesAs(backend, db, MovesOf(calls, ending, Interrupts(steps, reason)),
                      RolledBack(RunCalls(backend, db, First(calls, Some(steps))), db.tables), None, Err(reason))
  {
    var moves, begun := MovesOf(calls, ending, Interrupts(steps, reason)), Start<V, E>(db).(phase := Running);
    var some := First(calls, Some(steps));
    assert moves[1..] == Map(call => Query(call), some) + [RollBack(reason)];
    RunQueries(backend, begun, some, [RollBack(reason)]);
    LastMove(backend, begun.(db := RunCalls(backend, db, some)), RollBack(reason));
  }

  lemma FinishedRun<V, E>(backend: Backend, db: Db, calls: seq<Call>, ending: Result<V, E>, commitFailure: Option<string>)
    ensures var last := EndOf(ending, commitFailure);
            SettlesAs(backend, db, MovesOf(calls, ending, Runs(commitFailure)),
                      if last.Commit? then RunCalls(backend, db, calls) else RolledBack(RunCalls(backend, db, calls), db.tables),
                      Some(ending), if last.Commit? then Ok(()) else Err(last.reason))
  {
    var moves, begun := MovesOf(calls, ending, Runs(commitFailure)), Start<V, E>(db).(phase := Running);
    var last := EndOf(ending, commitFailure);
    assert moves[1..] == Map(call => Query(call), calls) + [Report(ending), last];
    RunQueries(backend, begun, calls, [Report(ending), last]);
    assert [Report(ending), last][1..] == [last];
    LastMove(backend, begun.(phase := Reported, db := RunCalls(backend, db, calls), slot := Some(ending)), last);
  }

  /** And every one-step transaction is such a run: the account admits no outcome the steps cannot reach. */
  lemma TransactionsAreRuns<V, E>(backend: Backend, db: Db, calls: seq<Call>, ending: Result<V, E>, platform: Platform, convert: Error -> E)
    ensures exists moves ::
              && Settles(backend, db, moves)
              && Transact(db, CallsCallback(backend, calls, ending), platform, convert) ==
                 (Ended(backend, db, moves).db, Answer(Ended(backend, db, moves), convert))
  {
    var moves := MovesOf(calls, ending, platform);
    match platform {
      case ResolvesUnrun => LastMove(backend, Start<V, E>(db), moves[0]);
      case RejectsUnrun(_) => LastMove(backend, Start<V, E>(db), moves[0]);
      case Interrupts(steps, reason) => InterruptedRun(backend, db, calls, ending, steps, reason);
      case Runs(commitFailure) => FinishedRun(backend, db, calls, ending, commitFailure);
    }
    assert Settles(backend, db, moves);
  }
}
