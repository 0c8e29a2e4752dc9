/** `DoConnection::transaction`: a callback run inside `Storage::transaction`, its outcome passed through a shared slot. */
module DoTransaction {
  import opened Wrappers
  import opened Errors
  import opened JsBoundary
  import opened Storage

  /**
   What the platform does with the transaction it is handed: resolve or reject without ever running the
   callback, reject while it is still running, so many of its steps done, or run it to its end and then
   commit or fail to. It rolls back whenever it does not commit.
   */
  datatype Platform =
    | ResolvesUnrun
    | RejectsUnrun(reason: string)
    | Interrupts(steps: nat, reason: string)
    | Runs(commitFailure: Option<string>)

  /** A callback: what it makes of the database it finds and how it ends, and how far it gets in so many steps. */
  datatype Callback<T, E> = Callback(run: Db -> (Db, Result<T, E>), until: (Db, nat) -> Db)

  const CALLBACK_FAILED := "the callback failed"

  /** The answer to the caller, from storage's own outcome and the one the callback left in the slot. */
  function Reconcile<T, E>(committed: Result<(), string>, outcome: Option<Result<T, E>>, convert: Error -> E): Result<T, E> {
    match (committed, outcome)
    case (_, Some(Err(error))) => Err(error)
    case (Ok(_), Some(Ok(value))) => Ok(value)
    case (Err(reason), _) => Err(convert(Protocol(TransactionFailed(reason))))
    case (Ok(_), None) => Err(convert(Protocol(CallbackNeverRan)))
  }

  /** The database after the platform has finished, its outcome, and what is in the slot. */
  datatype Settlement<T, E> = Settlement(db: Db, committed: Result<(), string>, outcome: Option<Result<T, E>>)

  function Settle<T, E>(db: Db, callback: Callback<T, E>, platform: Platform): Settlement<T, E> {
    match platform
    case ResolvesUnrun => Settlement(db, Ok(()), None)
    case RejectsUnrun(reason) => Settlement(db, Err(reason), None)
    case Interrupts(steps, reason) => Settlement(RolledBack(callback.until(db, steps), db.tables), Err(reason), None)
    case Runs(commitFailure) =>
      var (after, result) := callback.run(db);
      if result.Err? then Settlement(RolledBack(after, db.tables), Err(CALLBACK_FAILED), Some(result))
      else match commitFailure
        case None => Settlement(after, Ok(()), Some(result))
        case Some(reason) => Settlement(RolledBack(after, db.tables), Err(reason), Some(result))
  }

  /** A whole transaction. */
  function Transact<T, E>(db: Db, callback: Callback<T, E>, platform: Platform, convert: Error -> E): (Db, Result<T, E>) {
    var settled := Settle(db, callback, platform);
    (settled.db, Reconcile(settled.committed, settled.outcome, convert))
  }

  /** One call of `Storage::transaction`, with the slot the callback reports through. */
  class OpenTransaction<T, E> {
    const storage: SqlStorage
    const before: Tables
    var slot: Option<Result<T, E>>

    constructor (storage: SqlStorage)
      ensures this.storage == storage && before == storage.db.tables && slot == None
    {
      this.storage := storage;
      before := storage.db.tables;
      slot := None;
    }

    /** The end of the callback: its outcome goes into the slot. */
    method Report(result: Result<T, E>)
      modifies this
      ensures slot == Some(result)
    {
      slot := Some(result);
    }

    /** The platform's end of the transaction, which commits or puts the tables back. */
    method Finish(platform: Platform) returns (committed: Result<(), string>)
      requires platform.Runs? <==> slot.Some?
      modifies storage
      ensures match platform
              case ResolvesUnrun => committed == Ok(()) && storage.db == old(storage.db)
              case RejectsUnrun(reason) => committed == Err(reason) && storage.db == old(storage.db)
              case Interrupts(_, reason) => committed == Err(reason) && storage.db == RolledBack(old(storage.db), before)
              case Runs(commitFailure) =>
                if slot.value.Err? then committed == Err(CALLBACK_FAILED) && storage.db == RolledBack(old(storage.db), before)
                else if commitFailure.Some? then
                  committed == Err(commitFailure.value) && storage.db == RolledBack(old(storage.db), before)
                else committed == Ok(()) && storage.db == old(storage.db)
    {
      match platform
      case ResolvesUnrun =>
        committed := Ok(());
      case RejectsUnrun(reason) =>
        committed := Err(reason);
      case Interrupts(_, reason) =>
        storage.Rollback(before);
        committed := Err(reason);
      case Runs(commitFailure) =>
        if slot.value.Err? {
          storage.Rollback(before);
          committed := Err(CALLBACK_FAILED);
        } else if commitFailure.Some? {
          storage.Rollback(before);
          committed := Err(commitFailure.value);
        } else {
          committed := Ok(());
        }
    }

    /** Takes the outcome out of the slot. */
    method Take() returns (outcome: Option<Result<T, E>>)
      modifies this
      ensures outcome == old(slot) && slot == None
    {
      outcome := slot;
      slot := None;
    }
  }

  /** Runs the callback in a transaction. */
  method Transaction<T, E>(storage: SqlStorage, callback: Callback<T, E>, platform: Platform, convert: Error -> E)
    returns (r: Result<T, E>)
    modifies storage
    ensures (storage.db, r) == Transact(old(storage.db), callback, platform, convert)
  {
    var tx := new OpenTransaction<T, E>(storage);
    match platform {
      case Interrupts(steps, _) =>
        storage.db := callback.until(storage.db, steps);
      case Runs(_) =>
        var (after, result) := callback.run(storage.db);
        storage.db := after;
        tx.Report(result);
      case _ =>
    }
    var committed := tx.Finish(platform);
    var outcome := tx.Take();
    r := Reconcile(committed, outcome, convert);
  }

  // ---- What a transaction promises

  /** A value is returned exactly when the callback returned it and storage committed; anything else leaves the tables as they were. */
  lemma TransactionOutcome<T, E>(db: Db, callback: Callback<T, E>, platform: Platform, convert: Error -> E)
    ensures var (after, r) := Transact(db, callback, platform, convert);
            && (r.Ok? <==> platform == Runs(None) && callback.run(db).1.Ok?)
            && (r.Ok? ==> r == callback.run(db).1 && after == callback.run(db).0)
            && (r.Err? ==> after.tables == db.tables)
  {
  }

  /** How far the platform lets a callback get. */
  function Reached<T, E>(db: Db, callback: Callback<T, E>, platform: Platform): Db {
    match platform
    case Interrupts(steps, _) => callback.until(db, steps)
    case Runs(_) => callback.run(db).0
    case _ => db
  }

  /** A transaction that fails takes the tables back, and leaves the counters wherever its callback had got to. */
  lemma CountersOutliveRollback<T, E>(db: Db, callback: Callback<T, E>, platform: Platform, convert: Error -> E)
    ensures var (after, r) := Transact(db, callback, platform, convert);
            after == if r.Err? then RolledBack(Reached(db, callback, platform), db.tables) else callback.run(db).0
  {
  }
}
