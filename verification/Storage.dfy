/**
 Durable Object storage as the driver sees it, and nothing more: tables, the two counters SQLite keeps
 for a connection, statements that take effect as their cursor is stepped, and the one query the driver
 itself runs, which reads those counters.
 */
module Storage {
  import opened Wrappers
  import opened Doubles
  import opened Unicode
  import opened Values
  import opened JsBoundary
  import opened ErrorText

  /** What a statement did to a counter. */
  datatype Event = Counted(count: Int64) | Inserted(rowid: Int64)

  /**
   The database behind a connection. `changes` and `lastRowid` are what `changes()` and
   `last_insert_rowid()` return; no rollback restores them. `events` is the history of the counters,
   which no statement reads.
   */
  datatype Db = Db(tables: Tables, changes: Int64, lastRowid: Int64, events: seq<Event>)

  /** One effect of a statement: the tables it leaves, and the counters it sets if it sets any. */
  datatype Effect = Effect(tables: Tables, counted: Option<Int64>, inserted: Option<Int64>)

  function EventsOf(effect: Effect): seq<Event> {
    (if effect.counted.Some? then [Counted(effect.counted.value)] else []) +
    (if effect.inserted.Some? then [Inserted(effect.inserted.value)] else [])
  }

  function Apply(db: Db, effect: Effect): Db {
    Db(effect.tables, effect.counted.GetOr(db.changes), effect.inserted.GetOr(db.lastRowid), db.events + EventsOf(effect))
  }

  function ApplyAll(db: Db, effects: seq<Effect>): Db
    decreases |effects|
  {
    if effects == [] then db else ApplyAll(Apply(db, effects[0]), effects[1..])
  }

  /** A rollback restores the tables and leaves the counters. */
  function RolledBack(db: Db, before: Tables): Db {
    db.(tables := before)
  }

  /** One row of a cursor, and what producing it does. */
  datatype Step = Step(value: JsValue, effect: Effect)

  /** How a cursor ends, once stepped past its last row. */
  datatype End = Finishes(effect: Effect) | Breaks(effect: Effect, thrown: Thrown)

  /** A statement under way: what opening it does, each row, how it ends, and the rows it reports as written. */
  datatype Script = Script(names: seq<JsValue>, opening: Effect, steps: seq<Step>, end: End, written: nat)

  /** What `sql.exec` does: throws, possibly after running part of the text, or returns a cursor. */
  datatype Opening = Refused(effect: Effect, thrown: Thrown) | Opened(script: Script)

  /** Whether the counters' query is answered, under which column names, or how it fails. */
  datatype Probe = Answers(changes: string, rowid: string) | ProbeRefused(thrown: Thrown) | ProbeBreaks(thrown: Thrown)

  /** Any storage at all: what each statement does to each database, and when the counters can be read. */
  datatype Backend = Backend(run: (Db, string, seq<JsValue>) -> Opening, probe: Db -> Probe)

  const PROBE_SQL := "SELECT changes(), last_insert_rowid()"

  function NoEffect(db: Db): Effect {
    Effect(db.tables, None, None)
  }

  /** The counters' query: one row of two numbers, writing nothing. */
  function ProbeScript(db: Db, changes: string, rowid: string): Script {
    Script([JsString(ToUtf16(changes)), JsString(ToUtf16(rowid))],
           NoEffect(db),
           [Step(JsArray([Number(FromInt(db.changes)), Number(FromInt(db.lastRowid))]), NoEffect(db))],
           Finishes(NoEffect(db)),
           0)
  }

  function Open(backend: Backend, db: Db, sql: string, arguments: seq<JsValue>): Opening {
    if sql == PROBE_SQL && arguments == [] then
      OpenProbe(db, backend.probe(db))
    else
      backend.run(db, sql, arguments)
  }

  function OpenProbe(db: Db, probe: Probe): Opening {
    match probe
    case Answers(changes, rowid) => Opened(ProbeScript(db, changes, rowid))
    case ProbeRefused(thrown) => Refused(NoEffect(db), thrown)
    case ProbeBreaks(thrown) => Opened(Script([], NoEffect(db), [], Breaks(NoEffect(db), thrown), 0))
  }

  /** What stepping a cursor returns. */
  datatype Next = Threw(thrown: Thrown) | AtEnd | Item(value: JsValue)

  class SqlStorage {
    const backend: Backend
    var db: Db

    constructor (backend: Backend, db: Db)
      ensures this.backend == backend && this.db == db
    {
      this.backend := backend;
      this.db := db;
    }

    method Exec(sql: string, arguments: seq<JsValue>) returns (r: Result<Cursor, Thrown>)
      modifies this
      ensures match Open(backend, old(db), sql, arguments)
              case Refused(effect, thrown) => r == Err(thrown) && db == Apply(old(db), effect)
              case Opened(script) =>
                && r.Ok? && fresh(r.value) && r.value.storage == this && r.value.script == script
                && r.value.position == 0 && !r.value.ended
                && db == Apply(old(db), script.opening)
    {
      match Open(backend, db, sql, arguments)
      case Refused(effect, thrown) =>
        db := Apply(db, effect);
        r := Err(thrown);
      case Opened(script) =>
        db := Apply(db, script.opening);
        var cursor := new Cursor(this, script);
        r := Ok(cursor);
    }

    /** Puts the tables back, as a transaction that ends without committing does. */
    method Rollback(before: Tables)
      modifies this
      ensures db == RolledBack(old(db), before)
    {
      db := db.(tables := before);
    }
  }

  class Cursor {
    const storage: SqlStorage
    const script: Script
    var position: nat
    var ended: bool

    constructor (storage: SqlStorage, script: Script)
      ensures this.storage == storage && this.script == script && position == 0 && !ended
    {
      this.storage := storage;
      this.script := script;
      position := 0;
      ended := false;
    }

    /** Steps the cursor, which is when the statement goes on. */
    method Next() returns (next: Next)
      requires position <= |script.steps|
      modifies this, storage
      ensures position <= |script.steps|
      ensures if old(ended) then next == AtEnd && ended && position == old(position) && storage.db == old(storage.db)
              else if old(position) < |script.steps| then
                && next == Item(script.steps[old(position)].value)
                && position == old(position) + 1 && !ended
                && storage.db == Apply(old(storage.db), script.steps[old(position)].effect)
              else
                && ended && position == old(position)
                && storage.db == Apply(old(storage.db), script.end.effect)
                && next == if script.end.Finishes? then AtEnd else Threw(script.end.thrown)
    {
      if ended {
        next := AtEnd;
      } else if position < |script.steps| {
        var step := script.steps[position];
        storage.db := Apply(storage.db, step.effect);
        position := position + 1;
        next := Item(step.value);
      } else {
        storage.db := Apply(storage.db, script.end.effect);
        ended := true;
        next := if script.end.Finishes? then AtEnd else Threw(script.end.thrown);
      }
    }

    /** The JavaScript number `rowsWritten` is. */
    function RowsWritten(): Float64 {
      FromInt(script.written)
    }
  }

  // ---- What a run of effects leaves

  /** The last count the events set. */
  function LastCount(events: seq<Event>): Option<Int64> {
    if events == [] then None
    else if events[|events| - 1].Counted? then Some(events[|events| - 1].count)
    else LastCount(events[..|events| - 1])
  }

  /** The last rowid the events set. */
  function LastRowid(events: seq<Event>): Option<Int64> {
    if events == [] then None
    else if events[|events| - 1].Inserted? then Some(events[|events| - 1].rowid)
    else LastRowid(events[..|events| - 1])
  }

  function EventsOfAll(effects: seq<Effect>): seq<Event> {
    if effects == [] then [] else EventsOf(effects[0]) + EventsOfAll(effects[1..])
  }

  lemma {:induction false} LastOfAppended(a: seq<Event>, b: seq<Event>)
    ensures LastCount(a + b) == Or(LastCount(b), LastCount(a))
    ensures LastRowid(a + b) == Or(LastRowid(b), LastRowid(a))
    decreases |b|
  {
    if b == [] {
      assert a + b == a;
    } else {
      assert (a + b)[..|a + b| - 1] == a + b[..|b| - 1];
      LastOfAppended(a, b[..|b| - 1]);
    }
  }

  lemma LastOfEffect(effect: Effect)
    ensures LastCount(EventsOf(effect)) == effect.counted && LastRowid(EventsOf(effect)) == effect.inserted
  {
    var counted: seq<Event> := if effect.counted.Some? then [Counted(effect.counted.value)] else [];
    var inserted: seq<Event> := if effect.inserted.Some? then [Inserted(effect.inserted.value)] else [];
    LastOfAppended(counted, inserted);
    LastOfOne(counted);
    LastOfOne(inserted);
  }

  lemma LastOfOne(events: seq<Event>)
    requires |events| <= 1
    ensures LastCount(events) == if events != [] && events[0].Counted? then Some(events[0].count) else None
    ensures LastRowid(events) == if events != [] && events[0].Inserted? then Some(events[0].rowid) else None
  {
    if events != [] {
      assert events[..0] == [];
    }
  }

  /** Each counter ends at the last value set, or stays; the history grows by what was set; the tables are the last ones left. */
  lemma CountersAfterAll(db: Db, effects: seq<Effect>)
    ensures var after := ApplyAll(db, effects);
            && after.changes == LastCount(EventsOfAll(effects)).GetOr(db.changes)
            && after.lastRowid == LastRowid(EventsOfAll(effects)).GetOr(db.lastRowid)
            && after.events == db.events + EventsOfAll(effects)
            && after.tables == if effects == [] then db.tables else effects[|effects| - 1].tables
  {
    LastSetAfterAll(db, effects);
    HistoryAfterAll(db, effects);
    TablesAfterAll(db, effects);
  }

  lemma {:induction false} LastSetAfterAll(db: Db, effects: seq<Effect>)
    ensures ApplyAll(db, effects).changes == LastCount(EventsOfAll(effects)).GetOr(db.changes)
    ensures ApplyAll(db, effects).lastRowid == LastRowid(EventsOfAll(effects)).GetOr(db.lastRowid)
    decreases |effects|
  {
    if effects == [] {
    } else {
      LastSetAfterAll(Apply(db, effects[0]), effects[1..]);
      LastOfAppended(EventsOf(effects[0]), EventsOfAll(effects[1..]));
      LastOfEffect(effects[0]);
    }
  }

  lemma {:induction false} HistoryAfterAll(db: Db, effects: seq<Effect>)
    ensures ApplyAll(db, effects).events == db.events + EventsOfAll(effects)
    decreases |effects|
  {
    if effects == [] {
    } else {
      var first, later := EventsOf(effects[0]), EventsOfAll(effects[1..]);
      HistoryAfterAll(Apply(db, effects[0]), effects[1..]);
      assert (db.events + first) + later == db.events + (first + later);
    }
  }

  lemma {:induction false} TablesAfterAll(db: Db, effects: seq<Effect>)
    ensures ApplyAll(db, effects).tables == if effects == [] then db.tables else effects[|effects| - 1].tables
    decreases |effects|
  {
    if effects == [] {
    } else {
      TablesAfterAll(Apply(db, effects[0]), effects[1..]);
    }
  }

  lemma NoEffectChangesNothing(db: Db)
    ensures Apply(db, NoEffect(db)) == db
  {
  }
}
