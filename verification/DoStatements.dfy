/** The Durable Object driver's statements, run on the storage object. */
module DoStatements {
  import opened Wrappers
  import opened Doubles
  import opened Values
  import opened Errors
  import opened JsBoundary
  import opened ErrorText
  import opened Rows
  import opened Reading
  import opened Results
  import opened Storage
  import Driver = DoDriver
  import Laws = DoLaws

  /** Runs a statement and drains its cursor, converting no more rows than the limit asks for. */
  method Fetch(storage: SqlStorage, sql: string, arguments: seq<Value>, limit: Option<nat>)
    returns (r: Result<Driver.Fetched, Error>)
    modifies storage
    ensures Driver.Done(storage.db, r) == Driver.Fetch(storage.backend, old(storage.db), sql, arguments, limit)
  {
    var sent := ToJsArray(arguments);
    if sent.Err? {
      return Err(sent.error);
    }
    var opening := storage.Exec(sql, sent.value);
    if opening.Err? {
      return Err(DatabaseError(opening.error));
    }
    var cursor := opening.value;
    r := ReadCursor(storage, cursor, limit);
  }

  /** Reads a cursor just opened: to its end exactly when its names and the wanted rows can be converted. */
  method ReadCursor(storage: SqlStorage, cursor: Cursor, limit: Option<nat>) returns (r: Result<Driver.Fetched, Error>)
    requires cursor.storage == storage && cursor.position == 0 && !cursor.ended
    modifies storage, cursor
    ensures Driver.Done(storage.db, r) == Driver.Consume(old(storage.db), cursor.script, limit)
    ensures Laws.LeftAt(cursor.script, limit, cursor.position, cursor.ended)
  {
    var names := ReadNames(cursor.script.names);
    if names.Err? {
      return Err(names.error);
    }
    var rows: seq<seq<Value>> := [];
    while true
      invariant !cursor.ended && Laws.ConvertedSoFar(cursor.script, limit, cursor.position, |rows|)
      invariant Driver.Drain(storage.db, cursor.script, cursor.position, limit, rows)
             == Driver.Drain(old(storage.db), cursor.script, 0, limit, [])
      decreases |cursor.script.steps| - cursor.position
    {
      var next := cursor.Next();
      match next {
        case Threw(thrown) =>
          Laws.LeftAtTheEnd(cursor.script, limit, |rows|);
          return Err(DatabaseError(thrown));
        case AtEnd =>
          Laws.LeftAtTheEnd(cursor.script, limit, |rows|);
          break;
        case Item(value) =>
          if Driver.Wanted(|rows|, limit) {
            var row := ReadRow(value);
            if row.Err? {
              Laws.LeftAtARow(cursor.script, limit, |rows|);
              return Err(row.error);
            }
            rows := rows + [row.value];
          }
      }
    }
    var built := BuildRows(names.value, rows);
    if built.Err? {
      return Err(built.error);
    }
    return Ok(Driver.Fetched(built.value, AsU64(cursor.RowsWritten())));
  }

  /** The same, and then the counters, if rows were written. */
  method Execute(storage: SqlStorage, sql: string, arguments: seq<Value>, limit: Option<nat>)
    returns (r: Result<(seq<Row>, QueryResult), Error>)
    modifies storage
    ensures Driver.Done(storage.db, r) == Driver.Execute(storage.backend, old(storage.db), sql, arguments, limit)
  {
    var fetched := Fetch(storage, sql, arguments, limit);
    if fetched.Err? {
      return Err(fetched.error);
    }
    var rows := fetched.value.rows;
    if fetched.value.written == 0 {
      return Ok((rows, NOTHING));
    }
    var counts := Fetch(storage, PROBE_SQL, [], None);
    if counts.Err? {
      return Err(counts.error);
    }
    var result := Driver.ReadCounts(counts.value.rows);
    if result.Err? {
      return Err(result.error);
    }
    return Ok((rows, result.value));
  }

  /** Runs a statement for its effect. */
  method Run(storage: SqlStorage, sql: string, arguments: seq<Value>) returns (r: Result<QueryResult, Error>)
    modifies storage
    ensures storage.db == Driver.Execute(storage.backend, old(storage.db), sql, arguments, Some(0)).db
    ensures match Driver.Execute(storage.backend, old(storage.db), sql, arguments, Some(0)).result
            case Ok((_, result)) => r == Ok(result)
            case Err(error) => r == Err(error)
  {
    var executed := Execute(storage, sql, arguments, Some(0));
    if executed.Err? {
      return Err(executed.error);
    }
    return Ok(executed.value.1);
  }
}
