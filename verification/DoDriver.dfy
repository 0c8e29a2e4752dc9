/**
 What the Durable Object driver does with a statement, as functions from the database before to the
 database after and the driver's answer. The module DoStatements runs the same steps on the storage object.
 */
module DoDriver {
  import opened Wrappers
  import opened Doubles
  import opened Unicode
  import opened Values
  import opened Errors
  import opened JsBoundary
  import opened ErrorText
  import opened Rows
  import opened Reading
  import opened Results
  import opened Storage

  datatype Done<+T> = Done(db: Db, result: Result<T, Error>)

  /** The rows of a statement and how many it wrote. */
  datatype Fetched = Fetched(rows: seq<Row>, written: UInt64)

  /** Whether another row is wanted once `n` have been converted. */
  predicate Wanted(n: nat, limit: Option<nat>) {
    limit.None? || n < limit.value
  }

  /** Stepping a cursor from `position` to its end, converting rows while they are wanted. */
  function Drain(db: Db, script: Script, position: nat, limit: Option<nat>, rows: seq<seq<Value>>): Done<seq<seq<Value>>>
    requires position <= |script.steps|
    decreases |script.steps| - position
  {
    if position == |script.steps| then
      match script.end
      case Finishes(effect) => Done(Apply(db, effect), Ok(rows))
      case Breaks(effect, thrown) => Done(Apply(db, effect), Err(DatabaseError(thrown)))
    else
      var step := script.steps[position];
      var next := Apply(db, step.effect);
      if Wanted(|rows|, limit) then
        match ReadRow(step.value)
        case Ok(values) => Drain(next, script, position + 1, limit, rows + [values])
        case Err(error) => Done(next, Err(error))
      else
        Drain(next, script, position + 1, limit, rows)
  }

  /** What is made of a cursor, once open. */
  function Consume(db: Db, script: Script, limit: Option<nat>): Done<Fetched> {
    match ReadNames(script.names)
    case Err(error) => Done(db, Err(error))
    case Ok(names) =>
      var drained := Drain(db, script, 0, limit, []);
      match drained.result
      case Err(error) => Done(drained.db, Err(error))
      case Ok(values) =>
        match BuildRows(names, values)
        case Err(error) => Done(drained.db, Err(error))
        case Ok(rows) => Done(drained.db, Ok(Fetched(rows, AsU64(FromInt(script.written)))))
  }

  function Fetch(backend: Backend, db: Db, sql: string, arguments: seq<Value>, limit: Option<nat>): Done<Fetched> {
    match ToJsArray(arguments)
    case Err(error) => Done(db, Err(error))
    case Ok(sent) =>
      FetchOpened(db, Open(backend, db, sql, sent), limit)
  }

  function FetchOpened(db: Db, opening: Opening, limit: Option<nat>): Done<Fetched> {
    match opening
    case Refused(effect, thrown) => Done(Apply(db, effect), Err(DatabaseError(thrown)))
    case Opened(script) => Consume(Apply(db, script.opening), script, limit)
  }

  /** The counts in the answer to the counters' query. */
  function ReadCounts(counts: seq<Row>): Result<QueryResult, Error> {
    if counts == [] then Err(Protocol(NoCountsRow))
    else if |counts[0].values| < 1 then Err(Panic)
    else
      var changes := AsInt(counts[0].values[0]);
      if changes.Err? then Err(Decode(changes.error))
      else if |counts[0].values| < 2 then Err(Panic)
      else
        var rowid := AsInt(counts[0].values[1]);
        if rowid.Err? then Err(Decode(rowid.error))
    else if changes.value < 0 then Err(Decode(OutOfRange(changes.value)))
        else Ok(QueryResult(changes.value, Some(rowid.value)))
  }

  /** The counters, read right after a statement. */
  function ReadCounters(backend: Backend, db: Db): Done<QueryResult> {
    var probed := Fetch(backend, db, PROBE_SQL, [], None);
    match probed.result
    case Err(error) => Done(probed.db, Err(error))
    case Ok(Fetched(counts, _)) => Done(probed.db, ReadCounts(counts))
  }

  function Execute(backend: Backend, db: Db, sql: string, arguments: seq<Value>, limit: Option<nat>): Done<(seq<Row>, QueryResult)> {
    var fetched := Fetch(backend, db, sql, arguments, limit);
    match fetched.result
    case Err(error) => Done(fetched.db, Err(error))
    case Ok(Fetched(rows, written)) =>
      if written == 0 then Done(fetched.db, Ok((rows, NOTHING)))
      else
        var counters := ReadCounters(backend, fetched.db);
        match counters.result
        case Err(error) => Done(counters.db, Err(error))
        case Ok(result) => Done(counters.db, Ok((rows, result)))
  }

  // ---- The counters' query

  /** Why the rows answering the counters' query give no counts: none, too few columns, a column that is no integer, or a negative count. */
  predicate CountsFail(counts: seq<Row>, error: Error) {
    if counts == [] then error == Protocol(NoCountsRow)
    else
      var values := counts[0].values;
      if values == [] then error == Panic
      else if !values[0].Integer? then error == Decode(Mismatch(IntegerType, TypeOf(values[0])))
      else if |values| == 1 then error == Panic
      else if !values[1].Integer? then error == Decode(Mismatch(IntegerType, TypeOf(values[1])))
      else values[0].integer < 0 && error == Decode(OutOfRange(values[0].integer))
  }

  /** Whatever rows answer it, the counts are the first row's two integers, in order, or there is that error. */
  lemma {:induction false} CountsReadExactly(counts: seq<Row>)
    ensures forall error :: ReadCounts(counts) == Err(error) <==> CountsFail(counts, error)
    ensures ReadCounts(counts).Ok? ==>
              && counts != [] && |counts[0].values| >= 2 && ReadCounts(counts).value.lastInsertRowid.Some?
              && counts[0].values[0] == Integer(ReadCounts(counts).value.rowsAffected)
              && counts[0].values[1] == Integer(ReadCounts(counts).value.lastInsertRowid.value)
  {
  }

  /** What reading the counters gives: both exactly, when the query is answered and both are safe and the count is a count. */
  function CountersReport(backend: Backend, db: Db): Result<QueryResult, Error> {
    match backend.probe(db)
    case Answers(_, _) =>
      if !Safe(db.changes) then Err(Decode(Mismatch(IntegerType, RealType)))
      else if !Safe(db.lastRowid) then Err(Decode(Mismatch(IntegerType, RealType)))
      else if db.changes < 0 then Err(Decode(OutOfRange(db.changes)))
      else Ok(QueryResult(db.changes, Some(db.lastRowid)))
    case ProbeRefused(thrown) => Err(DatabaseError(thrown))
    case ProbeBreaks(thrown) => Err(DatabaseError(thrown))
  }

  /** Reading the counters never changes the database, never panics, and reports what they are or fails. */
  lemma CountersReadExactly(backend: Backend, db: Db)
    ensures ReadCounters(backend, db) == Done(db, CountersReport(backend, db))
  {
    NoEffectChangesNothing(db);
    FetchWithoutArguments(backend, db, PROBE_SQL, None);
    ProbeConsumed(db, backend.probe(db));
    match backend.probe(db)
    case Answers(_, _) => CountersConverted(db.changes, db.lastRowid);
    case _ =>
  }

  lemma CountersConverted(changes: Int64, rowid: Int64)
    ensures AsInt(FromNumber(FromInt(changes))) == if Safe(changes) then Ok(changes) else Err(Mismatch(IntegerType, RealType))
    ensures AsInt(FromNumber(FromInt(rowid))) == if Safe(rowid) then Ok(rowid) else Err(Mismatch(IntegerType, RealType))
  {
    forall i: Int64 | i in {changes, rowid}
      ensures AsInt(FromNumber(FromInt(i))) == if Safe(i) then Ok(i) else Err(Mismatch(IntegerType, RealType))
    {
      SafeIntegerIsExactness(i);
      if !Safe(i) {
        BeyondTheBound(i);
      }
    }
  }

  lemma FetchWithoutArguments(backend: Backend, db: Db, sql: string, limit: Option<nat>)
    ensures Fetch(backend, db, sql, [], limit) == FetchOpened(db, Open(backend, db, sql, []), limit)
  {
    assert Map(ToJs, []) == [];
    assert ToJsArray([]) == Ok([]);
  }

  lemma ProbeConsumed(db: Db, probe: Probe)
    ensures var fetched := FetchOpened(db, OpenProbe(db, probe), None);
            match probe
            case Answers(_, _) =>
              && fetched.db == db && fetched.result.Ok? && |fetched.result.value.rows| == 1
              && fetched.result.value.rows[0].values == [FromNumber(FromInt(db.changes)), FromNumber(FromInt(db.lastRowid))]
            case ProbeRefused(thrown) => fetched == Done(db, Err(DatabaseError(thrown)))
            case ProbeBreaks(thrown) => fetched == Done(db, Err(DatabaseError(thrown)))
  {
    NoEffectChangesNothing(db);
    match probe
    case Answers(changes, rowid) =>
      var script := ProbeScript(db, changes, rowid);
      TwoNames(changes, rowid);
      TwoNumbers(FromInt(db.changes), FromInt(db.lastRowid));
      OneQuietRow(db, script, [changes, rowid], [FromNumber(FromInt(db.changes)), FromNumber(FromInt(db.lastRowid))]);
    case ProbeRefused(_) =>
    case ProbeBreaks(_) => assert ReadNames([]) == Ok([]);
  }

  lemma TwoNames(first: string, second: string)
    ensures ReadNames([JsString(ToUtf16(first)), JsString(ToUtf16(second))]) == Ok([first, second])
  {
    var names := [JsString(ToUtf16(first)), JsString(ToUtf16(second))];
    Utf16RoundTrip(first);
    Utf16RoundTrip(second);
    assert Map(ReadName, names) == [ReadName(names[0]), ReadName(names[1])];
    assert ReadNames(names).value == [first, second];
  }

  lemma TwoNumbers(x: Float64, y: Float64)
    ensures ReadRow(JsArray([Number(x), Number(y)])) == Ok([FromNumber(x), FromNumber(y)])
  {
    var items := [Number(x), Number(y)];
    assert Map(FromJs, items) == [FromJs(items[0]), FromJs(items[1])];
    assert ReadRow(JsArray(items)).value == [FromNumber(x), FromNumber(y)];
  }

  /** A statement of one row that changes nothing. */
  lemma OneQuietRow(db: Db, script: Script, names: seq<string>, values: seq<Value>)
    requires ReadNames(script.names) == Ok(names) && |values| == |names|
    requires |script.steps| == 1 && script.steps[0].effect == NoEffect(db) && ReadRow(script.steps[0].value) == Ok(values)
    requires script.end == Finishes(NoEffect(db))
    ensures var consumed := Consume(db, script, None);
            consumed.db == db && consumed.result.Ok? && |consumed.result.value.rows| == 1 && consumed.result.value.rows[0].values == values
  {
    NoEffectChangesNothing(db);
    assert [] + [values] == [values];
    assert Drain(db, script, 1, None, [values]) == Done(db, Ok([values]));
    RowsBuiltExactly(names, [values]);
  }
}
