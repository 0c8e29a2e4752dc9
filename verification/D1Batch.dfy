/** The D1 batch: every statement prepared and bound first, then all of them sent at once. */
module D1Batch {
  import opened Wrappers
  import opened Doubles
  import opened Values
  import opened Errors
  import opened ErrorText
  import opened JsBoundary
  import opened Rows
  import opened Results
  import opened Queries
  import opened Reading
  import opened D1Objects
  import opened D1Driver
  import opened D1Agreement

  /** A statement ready to send: its text and the values bound to its placeholders. */
  datatype Statement = Statement(sql: string, bound: seq<JsValue>)

  /** What D1 says a statement did; anything but a number is no report. */
  datatype Meta = MetaThrew | Meta(changes: JsValue, lastRowId: JsValue)

  datatype StatementResult = StatementResult(rows: ResultsReply, meta: Meta)

  /** What D1 does with a batch: throws or rejects it, with nothing applied, or applies it whole. */
  datatype Reply =
    | Threw(thrown: Thrown)
    | Rejected(thrown: Thrown)
    | Applied(tables: Tables, results: Option<seq<StatementResult>>)

  /** Any D1 at all: which texts it refuses to prepare, which values to bind, and what it does with a batch. */
  datatype Server = Server(prepare: string -> Option<Thrown>, bind: Statement -> Option<Thrown>, batch: (Tables, seq<Statement>) -> Reply)

  class D1Database {
    const server: Server
    var tables: Tables
    var sent: seq<seq<Statement>>

    constructor (server: Server, tables: Tables)
      ensures this.server == server && this.tables == tables && sent == []
    {
      this.server := server;
      this.tables := tables;
      sent := [];
    }

    method Batch(statements: seq<Statement>) returns (reply: Reply)
      modifies this
      ensures reply == server.batch(old(tables), statements) && sent == old(sent) + [statements]
      ensures tables == if reply.Applied? then reply.tables else old(tables)
    {
      reply := server.batch(tables, statements);
      sent := sent + [statements];
      if reply.Applied? {
        tables := reply.tables;
      }
    }
  }

  /** A statement prepared, and bound if it has arguments. */
  function Prepare(server: Server, query: Prepared): Result<Statement, Error> {
    var refused := server.prepare(query.sql);
    if refused.Some? then Err(DatabaseError(refused.value))
    else if query.arguments == [] then Ok(Statement(query.sql, []))
    else
      match ToJsArray(query.arguments)
      case Err(error) => Err(error)
      case Ok(values) =>
        var statement := Statement(query.sql, values);
        var unbound := server.bind(statement);
        if unbound.Some? then Err(DatabaseError(unbound.value)) else Ok(statement)
  }

  function PrepareAll(server: Server, queries: seq<Prepared>): Result<seq<Statement>, Error> {
    Collect(Map((query: Prepared) => Prepare(server, query), queries))
  }

  /** A number of the report, if it is one. */
  function AsNumber(value: JsValue): Option<Float64> {
    if value.Number? then Some(value.number) else None
  }

  function ReadMeta(meta: Meta): Result<QueryResult, Error> {
    match meta
    case MetaThrew => Err(Protocol(UnexpectedResponse))
    case Meta(changes, lastRowId) =>
      var count, rowid := AsNumber(changes), AsNumber(lastRowId);
      Ok(QueryResult(if count.Some? then AsU64(count.value) else 0, if rowid.Some? then Some(AsI64(rowid.value)) else None))
  }

  function ReadResult(result: StatementResult): Result<BatchResult, Error> {
    match ReadResults(result.rows)
    case Err(error) => Err(error)
    case Ok(rows) =>
      match ReadMeta(result.meta)
      case Err(error) => Err(error)
      case Ok(did) => Ok(BatchResult(rows, did))
  }

  function ReadReply(reply: Reply): Result<seq<BatchResult>, Error> {
    match reply
    case Threw(thrown) => Err(DatabaseError(thrown))
    case Rejected(thrown) => Err(DatabaseError(thrown))
    case Applied(_, None) => Err(Protocol(RowNotArray))
    case Applied(_, Some(results)) => Collect(Map(ReadResult, results))
  }

  /** The statements a batch sends, if it gets that far. */
  function Ready(server: Server, queries: seq<Query>): Result<seq<Statement>, Error> {
    match TakeAll(queries)
    case Err(error) => Err(error)
    case Ok(taken) => PrepareAll(server, taken)
  }

  /** Runs a batch: the database ends as `BatchEnds` says. */
  method RunBatch(db: D1Database, queries: seq<Query>) returns (r: Result<seq<BatchResult>, Error>)
    modifies db
    ensures BatchEnds(db.server, old(db.tables), old(db.sent), queries, db.tables, db.sent, r)
  {
    var taken := TakeAll(queries);
    if taken.Err? {
      return Err(taken.error);
    }
    if taken.value == [] {
      return Ok([]);
    }
    var statements := PrepareAll(db.server, taken.value);
    if statements.Err? {
      return Err(statements.error);
    }
    var reply := db.Batch(statements.value);
    return ReadReply(reply);
  }

  /** The end of a batch: the tables and what had been sent, before and after, and the answer. */
  predicate BatchEnds(server: Server, tables: Tables, sent: seq<seq<Statement>>, queries: seq<Query>,
                      tables': Tables, sent': seq<seq<Statement>>, r: Result<seq<BatchResult>, Error>) {
    var ready := Ready(server, queries);
    if ready.Err? then tables' == tables && sent' == sent && r == Err(ready.error)
    else if queries == [] then tables' == tables && sent' == sent && r == Ok([])
    else
      var reply := server.batch(tables, ready.value);
      && sent' == sent + [ready.value]
      && tables' == (if reply.Applied? then reply.tables else tables)
      && r == ReadReply(reply)
  }

  // ---- What a batch promises

  /** Statement `i` carries query `i`'s text, and its arguments in placeholder order. */
  predicate CarriesQuery(statement: Statement, query: Query) {
    && query.arguments.Ok? && statement.sql == query.sql
    && var arguments := query.arguments.value.GetOr([]);
       && |statement.bound| == |arguments|
       && forall j | 0 <= j < |arguments| :: ToJs(arguments[j]) == Ok(statement.bound[j])
  }

  lemma PreparedCarries(server: Server, query: Prepared)
    requires Prepare(server, query).Ok?
    ensures var statement := Prepare(server, query).value;
            && statement.sql == query.sql && |statement.bound| == |query.arguments|
            && forall j | 0 <= j < |query.arguments| :: ToJs(query.arguments[j]) == Ok(statement.bound[j])
    ensures server.prepare(query.sql).None?
    ensures query.arguments != [] ==> server.bind(Prepare(server, query).value).None?
  {
    ArgumentsInOrder(query.arguments);
  }

  /** When a statement is ready: prepared, with every argument bindable and the binding accepted. */
  lemma PreparedExactly(server: Server, query: Prepared)
    ensures Prepare(server, query).Ok? <==>
              && server.prepare(query.sql).None?
              && (forall j | 0 <= j < |query.arguments| :: ToJs(query.arguments[j]).Ok?)
              && (query.arguments != [] ==> server.bind(Statement(query.sql, ToJsArray(query.arguments).value)).None?)
  {
    ArgumentsInOrder(query.arguments);
  }

  /**
   Nothing is sent until everything is ready: if a bind failed, or D1 refuses to prepare or bind any statement,
   or the batch is empty, D1 is never called. Otherwise it is called once, with one statement per query,
   in order, carrying that query's text and arguments.
   */
  lemma NothingSentUntilReady(server: Server, tables: Tables, sent: seq<seq<Statement>>, queries: seq<Query>,
                              tables': Tables, sent': seq<seq<Statement>>, r: Result<seq<BatchResult>, Error>)
    requires BatchEnds(server, tables, sent, queries, tables', sent', r)
    ensures sent' == sent <==> Ready(server, queries).Err? || queries == []
    ensures sent' == sent ==> tables' == tables && (r.Ok? <==> queries == [])
    ensures Ready(server, queries).Ok? <==>
              forall i | 0 <= i < |queries| :: queries[i].arguments.Ok? && Prepare(server, TakeArguments(queries[i]).value).Ok?
    ensures sent' != sent ==>
              && |sent'| == |sent| + 1 && sent'[..|sent|] == sent && |sent'[|sent|]| == |queries|
              && forall i | 0 <= i < |queries| :: CarriesQuery(sent'[|sent|][i], queries[i])
  {
    TakenInOrder(queries);
    var taken := TakeAll(queries);
    if taken.Ok? {
      var prepared := Map((query: Prepared) => Prepare(server, query), taken.value);
      assert forall i | 0 <= i < |queries| :: prepared[i] == Prepare(server, TakeArguments(queries[i]).value);
      if PrepareAll(server, taken.value).Ok? && queries != [] {
        var statements := PrepareAll(server, taken.value).value;
        assert (sent + [statements])[|sent|] == statements;
        assert sent' != sent by {
          assert |sent'| == |sent| + 1;
        }
        forall i | 0 <= i < |queries|
          ensures CarriesQuery(statements[i], queries[i])
        {
          assert prepared[i] == Ok(statements[i]);
          PreparedCarries(server, taken.value[i]);
        }
      }
    }
  }

  /**
   Whether a statement's result cannot be read: asking for its rows or its report throws, or some row, under one
   of the first row's keys, holds a value that cannot be converted.
   */
  ghost predicate Unreadable(result: StatementResult) {
    || result.meta.MetaThrew?
    || match result.rows
       case ResultsThrew => true
       case NoResults => false
       case Objects(objects) => exists i, key | 0 <= i < |objects| && key in objects[0].order :: !Convertible(Get(objects[i], key))
  }

  /** Whether what D1 returned for an applied batch can be read. */
  ghost predicate Readable(reply: Reply)
    requires reply.Applied?
  {
    reply.results.Some? && forall s | 0 <= s < |reply.results.value| :: !Unreadable(reply.results.value[s])
  }

  /**
   "With nothing applied" is true of an error exactly when D1 was not called or did not apply the batch: rows are
   read after D1 has committed, so a batch whose rows cannot be read is an error with everything applied.
   */
  lemma ErrorsWithEverythingApplied(server: Server, tables: Tables, sent: seq<seq<Statement>>, queries: seq<Query>,
                                    tables': Tables, sent': seq<seq<Statement>>, r: Result<seq<BatchResult>, Error>)
    requires BatchEnds(server, tables, sent, queries, tables', sent', r)
    ensures var applied := queries != [] && Ready(server, queries).Ok? && server.batch(tables, Ready(server, queries).value).Applied?;
            && (r.Ok? <==> queries == [] || (applied && Readable(server.batch(tables, Ready(server, queries).value))))
            && (r.Err? && !applied ==> tables' == tables)
            && (applied ==> tables' == server.batch(tables, Ready(server, queries).value).tables)
            && (r.Err? && applied <==> applied && !Readable(server.batch(tables, Ready(server, queries).value)))
  {
    assert queries == [] ==> TakeAll(queries) == Ok([]) && PrepareAll(server, []) == Ok([]);
    var ready := Ready(server, queries);
    if queries != [] && ready.Ok? && server.batch(tables, ready.value).Applied? {
      ReplyReadExactly(server.batch(tables, ready.value));
    }
  }

  /** What D1 returned for an applied batch is read, statement by statement, exactly when it is readable. */
  lemma ReplyReadExactly(reply: Reply)
    requires reply.Applied?
    ensures ReadReply(reply).Ok? <==> Readable(reply)
    ensures ReadReply(reply).Ok? ==>
              var results, read := reply.results.value, ReadReply(reply).value;
              |read| == |results| && forall s | 0 <= s < |results| :: ReadResult(results[s]) == Ok(read[s])
  {
    if reply.results.Some? {
      var results := reply.results.value;
      forall s | 0 <= s < |results|
        ensures Map(ReadResult, results)[s] == ReadResult(results[s])
        ensures ReadResult(results[s]).Ok? <==> !Unreadable(results[s])
      {
        ResultReadExactly(results[s]);
      }
    }
  }

  lemma ResultReadExactly(result: StatementResult)
    ensures ReadResult(result).Ok? <==> !Unreadable(result)
  {
    if result.rows.Objects? {
      BatchRowsReadExactly(result.rows.objects);
    }
  }

  lemma BatchRowsReadExactly(objects: seq<JsObject>)
    ensures ReadResults(Objects(objects)).Ok? <==>
              forall i, key | 0 <= i < |objects| && key in objects[0].order :: Convertible(Get(objects[i], key))
  {
    ObjectsReadWhole(objects);
    forall i | 0 <= i < |objects|
      ensures ObjectConverts(OwnKeys(objects[0]), objects[i]) <==> forall key | key in objects[0].order :: Convertible(Get(objects[i], key))
    {
      ConvertsByKey(objects[0], objects[i]);
    }
  }

  lemma ConvertsByKey(first: JsObject, row: JsObject)
    ensures ObjectConverts(OwnKeys(first), row) <==> forall key | key in first.order :: Convertible(Get(row, key))
  {
    var keys := OwnKeys(first);
    forall key: string
      ensures key in keys <==> key in first.order
    {
      OwnKeysHasKey(first, key);
    }
    assert forall key | key in first.order :: key in keys;
    assert forall p | 0 <= p < |keys| :: keys[p] in first.order;
  }

  /**
   One value that cannot be converted, in any row of any statement, is enough, and so is one report that throws: the
   batch is applied, and its answer is an error. Nothing else that D1 lists makes it one.
   */
  lemma OneUnreadableValueIsEnough(tables: Tables, results: seq<StatementResult>)
    ensures ReadReply(Applied(tables, Some(results))).Err? <==>
              || (exists s | 0 <= s < |results| :: results[s].meta.MetaThrew? || results[s].rows.ResultsThrew?)
              || (exists s, i, key |
                    && 0 <= s < |results| && results[s].rows.Objects?
                    && 0 <= i < |results[s].rows.objects| && key in results[s].rows.objects[0].order ::
                    !Convertible(Get(results[s].rows.objects[i], key)))
  {
    ReplyReadExactly(Applied(tables, Some(results)));
  }

  // ---- What a batch answers, told from what D1 returned

  /** Whether rows hold the objects: one row each, under the first object's own keys, of the values the object has there. */
  ghost predicate HoldObjects(objects: seq<JsObject>, rows: seq<Row>) {
    && |rows| == |objects|
    && forall i | 0 <= i < |rows| :: HoldsObject(OwnKeys(objects[0]), objects[i], rows[i], ValuesOf(rows))
  }

  predicate HoldsObject(keys: seq<string>, row: JsObject, held: Row, values: seq<seq<Value>>) {
    && WellFormed(held) && |held.columns| == |keys|
    && forall p | 0 <= p < |keys| ::
         && IsReadAs(Get(row, keys[p]), held.values[p])
         && held.columns[p].name == keys[p] && held.columns[p].typeInfo == ColumnType(values, p)
  }

  /** Whether a report is of what D1 said: the count and rowid as they truncate, where D1 gave numbers. */
  ghost predicate Reports(meta: Meta, did: QueryResult) {
    && meta.Meta?
    && (if meta.changes.Number? then TruncatesTo(meta.changes.number, 0, 0xFFFF_FFFF_FFFF_FFFF, did.rowsAffected) else did.rowsAffected == 0)
    && (if meta.lastRowId.Number? then
          did.lastInsertRowid.Some? &&
          TruncatesTo(meta.lastRowId.number, -0x8000_0000_0000_0000, 0x7FFF_FFFF_FFFF_FFFF, did.lastInsertRowid.value)
        else did.lastInsertRowid.None?)
  }

  /** Whether one answer is of one statement's result. */
  ghost predicate Answers(result: StatementResult, answer: BatchResult) {
    && Reports(result.meta, answer.result)
    && match result.rows
       case ResultsThrew => false
       case NoResults => answer.rows == []
       case Objects(objects) => HoldObjects(objects, answer.rows)
  }

  /** An applied batch that succeeds answers with each statement's rows and report, in order. */
  lemma BatchAnswers(server: Server, tables: Tables, sent: seq<seq<Statement>>, queries: seq<Query>,
                     tables': Tables, sent': seq<seq<Statement>>, r: Result<seq<BatchResult>, Error>)
    requires BatchEnds(server, tables, sent, queries, tables', sent', r)
    requires r.Ok? && queries != [] && Ready(server, queries).Ok?
    ensures var reply := server.batch(tables, Ready(server, queries).value);
            && reply.Applied? && reply.results.Some? && |r.value| == |reply.results.value|
            && forall s | 0 <= s < |r.value| :: Answers(reply.results.value[s], r.value[s])
  {
    var reply := server.batch(tables, Ready(server, queries).value);
    ReplyReadExactly(reply);
    forall s | 0 <= s < |r.value|
      ensures Answers(reply.results.value[s], r.value[s])
    {
      ResultAnswered(reply.results.value[s]);
    }
  }

  lemma ResultAnswered(result: StatementResult)
    ensures ReadResult(result).Ok? ==> Answers(result, ReadResult(result).value)
  {
    if ReadResult(result).Ok? {
      if result.rows.Objects? {
        ObjectsHeld(result.rows.objects);
      }
      if result.meta.changes.Number? {
        CastsTruncate(result.meta.changes.number);
      }
      if result.meta.lastRowId.Number? {
        CastsTruncate(result.meta.lastRowId.number);
      }
    }
  }

  lemma ObjectsHeld(objects: seq<JsObject>)
    requires ReadResults(Objects(objects)).Ok?
    ensures HoldObjects(objects, ReadResults(Objects(objects)).value)
  {
    if objects != [] {
      var keys := OwnKeys(objects[0]);
      var results := Map((row: JsObject) => ReadObject(keys, row), objects);
      var values, rows := Collect(results).value, ReadResults(Objects(objects)).value;
      RowsBuiltExactly(keys, values);
      assert ValuesOf(rows) == values;
      forall i | 0 <= i < |objects|
        ensures HoldsObject(keys, objects[i], rows[i], values)
      {
        assert results[i] == Ok(values[i]);
        ObjectHeld(keys, objects[i], values[i]);
      }
    }
  }

  lemma ObjectHeld(keys: seq<string>, row: JsObject, values: seq<Value>)
    requires ReadObject(keys, row) == Ok(values)
    ensures |values| == |keys| && forall p | 0 <= p < |keys| :: IsReadAs(Get(row, keys[p]), values[p])
  {
    forall p | 0 <= p < |keys|
      ensures IsReadAs(Get(row, keys[p]), values[p])
    {
      assert Map((key: string) => FromJs(Get(row, key)), keys)[p] == FromJs(Get(row, keys[p]));
      ReadExactly(Get(row, keys[p]));
    }
  }

  /** So a statement of a batch answers as the executor reads the same result: every name finds the same value under the same type. */
  lemma BatchAgreesWithFetch(result: StatementResult, names: seq<string>, cells: seq<seq<JsValue>>)
    requires forall i | 0 <= i < |cells| :: |cells[i]| == |names|
    requires result.rows == AsObjects(names, cells) && result.meta.Meta? && Fetch(AsArrays(names, cells), None).Ok?
    ensures ReadResult(result).Ok?
    ensures var arrays, rows := Fetch(AsArrays(names, cells), None).value, ReadResult(result).value.rows;
            && |arrays| == |rows| == |cells|
            && forall i | 0 <= i < |cells| ::
                 && WellFormed(arrays[i]) && WellFormed(rows[i])
                 && forall name :: Lookup(rows[i], name) == Lookup(arrays[i], name)
  {
    ReadingsAgreeByName(names, cells);
  }

  // ---- Why a batch fails

  /** Why an object cannot be read: for its first value that cannot be converted, in the order of the keys. */
  ghost predicate ObjectFails(keys: seq<string>, row: JsObject, error: Error) {
    exists p | 0 <= p < |keys| ::
      IsUnreadableFor(Get(row, keys[p]), error) && forall q | 0 <= q < p :: Convertible(Get(row, keys[q]))
  }

  predicate ObjectConverts(keys: seq<string>, row: JsObject) {
    forall p | 0 <= p < |keys| :: Convertible(Get(row, keys[p]))
  }

  ghost predicate ObjectsFail(objects: seq<JsObject>, error: Error) {
    exists i | 0 <= i < |objects| ::
      && ObjectFails(OwnKeys(objects[0]), objects[i], error)
      && forall j | 0 <= j < i :: ObjectConverts(OwnKeys(objects[0]), objects[j])
  }

  /** Why a statement's result cannot be read: its rows first, then its report. */
  ghost predicate ResultFails(result: StatementResult, error: Error) {
    match result.rows
    case ResultsThrew => error == Protocol(UnexpectedResponse)
    case NoResults => result.meta.MetaThrew? && error == Protocol(UnexpectedResponse)
    case Objects(objects) =>
      if forall i | 0 <= i < |objects| :: ObjectConverts(OwnKeys(objects[0]), objects[i])
      then result.meta.MetaThrew? && error == Protocol(UnexpectedResponse)
      else ObjectsFail(objects, error)
  }

  /** Why a statement cannot be made ready: D1 refuses its text, an argument cannot be sent, or D1 refuses the binding. */
  ghost predicate PrepareFails(server: Server, query: Prepared, error: Error) {
    if server.prepare(query.sql).Some? then error == DatabaseError(server.prepare(query.sql).value)
    else if exists i | 0 <= i < |query.arguments| :: IsUnsafe(query.arguments[i]) then ArgumentsFail(query.arguments, error)
    else
      ArgumentsExactly(query.arguments);
      var refused := server.bind(Statement(query.sql, ToJsArray(query.arguments).value));
      query.arguments != [] && refused.Some? && error == DatabaseError(refused.value)
  }

  /** The first statement that cannot be made ready. */
  ghost predicate PreparationFails(server: Server, queries: seq<Prepared>, error: Error) {
    exists i | 0 <= i < |queries| ::
      PrepareFails(server, queries[i], error) && forall j | 0 <= j < i :: Prepare(server, queries[j]).Ok?
  }

  /** Why what D1 did with a batch is an error: it threw or rejected; or it applied it and returned no list, or a result that cannot be read. */
  ghost predicate ReplyFails(reply: Reply, error: Error) {
    match reply
    case Threw(thrown) => error == DatabaseError(thrown)
    case Rejected(thrown) => error == DatabaseError(thrown)
    case Applied(_, results) =>
      if results.None? then error == Protocol(RowNotArray)
      else exists s | 0 <= s < |results.value| :: ResultFails(results.value[s], error) && forall j | 0 <= j < s :: !Unreadable(results.value[j])
  }

  /** What went wrong first: a bind, making a statement ready, or D1. */
  ghost predicate BatchFails(server: Server, tables: Tables, queries: seq<Query>, error: Error) {
    var taken := TakeAll(queries);
    if taken.Err? then BindsFail(queries, error)
    else if Ready(server, queries).Err? then PreparationFails(server, taken.value, error)
    else queries != [] && ReplyFails(server.batch(tables, Ready(server, queries).value), error)
  }

  /** A batch fails with its cause and no other error. */
  lemma {:induction false} BatchErrorIsTheCause(server: Server, tables: Tables, sent: seq<seq<Statement>>, queries: seq<Query>,
                             tables': Tables, sent': seq<seq<Statement>>, r: Result<seq<BatchResult>, Error>)
    requires BatchEnds(server, tables, sent, queries, tables', sent', r)
    ensures forall error :: r == Err(error) <==> BatchFails(server, tables, queries, error)
  {
    FailedBindIsTheError(queries);
    TakenInOrder(queries);
    var taken := TakeAll(queries);
    if taken.Ok? {
      PreparationExactly(server, taken.value);
      if Ready(server, queries).Ok? {
        ReplyFailsExactly(server.batch(tables, Ready(server, queries).value));
      }
    }
  }

  lemma {:induction false} PreparationExactly(server: Server, queries: seq<Prepared>)
    ensures forall error :: PrepareAll(server, queries) == Err(error) <==> PreparationFails(server, queries, error)
  {
    var results := Map((query: Prepared) => Prepare(server, query), queries);
    forall i | 0 <= i < |queries|
      ensures results[i] == Prepare(server, queries[i])
      ensures forall error :: results[i] == Err(error) <==> PrepareFails(server, queries[i], error)
    {
      PrepareFailsExactly(server, queries[i]);
    }
    forall error | PreparationFails(server, queries, error)
      ensures Collect(results) == Err(error)
    {
      var i :| 0 <= i < |queries| && PrepareFails(server, queries[i], error) && forall j | 0 <= j < i :: Prepare(server, queries[j]).Ok?;
      CollectFirstError(results, i);
    }
  }

  lemma {:induction false} PrepareFailsExactly(server: Server, query: Prepared)
    ensures forall error :: Prepare(server, query) == Err(error) <==> PrepareFails(server, query, error)
  {
    ArgumentsExactly(query.arguments);
  }

  lemma {:induction false} ReplyFailsExactly(reply: Reply)
    ensures forall error :: ReadReply(reply) == Err(error) <==> ReplyFails(reply, error)
  {
    if reply.Applied? && reply.results.Some? {
      var results := reply.results.value;
      var read := Map(ReadResult, results);
      forall s | 0 <= s < |results|
        ensures read[s] == ReadResult(results[s]) && (read[s].Ok? <==> !Unreadable(results[s]))
        ensures forall error :: read[s] == Err(error) <==> ResultFails(results[s], error)
      {
        ResultReadExactly(results[s]);
        ResultFailsExactly(results[s]);
      }
      forall error | ReplyFails(reply, error)
        ensures Collect(read) == Err(error)
      {
        var s :| 0 <= s < |results| && ResultFails(results[s], error) && forall j | 0 <= j < s :: !Unreadable(results[j]);
        CollectFirstError(read, s);
      }
    }
  }

  lemma {:induction false} ResultFailsExactly(result: StatementResult)
    ensures forall error :: ReadResult(result) == Err(error) <==> ResultFails(result, error)
  {
    if result.rows.Objects? {
      ObjectsFailExactly(result.rows.objects);
    }
  }

  lemma {:induction false} ObjectsFailExactly(objects: seq<JsObject>)
    ensures ReadResults(Objects(objects)).Ok? <==> forall i | 0 <= i < |objects| :: ObjectConverts(OwnKeys(objects[0]), objects[i])
    ensures forall error :: ReadResults(Objects(objects)) == Err(error) <==> ObjectsFail(objects, error)
  {
    ObjectsReadWhole(objects);
    if objects != [] {
      var keys := OwnKeys(objects[0]);
      CollectedFails(keys, objects, Map((row: JsObject) => ReadObject(keys, row), objects));
    }
  }

  lemma ObjectsReadWhole(objects: seq<JsObject>)
    ensures ReadResults(Objects(objects)).Ok? <==> forall i | 0 <= i < |objects| :: ObjectConverts(OwnKeys(objects[0]), objects[i])
    ensures objects != [] ==>
              var results := Map((row: JsObject) => ReadObject(OwnKeys(objects[0]), row), objects);
              && (ReadResults(Objects(objects)).Ok? <==> Collect(results).Ok?)
              && (Collect(results).Err? ==> ReadResults(Objects(objects)) == Err(Collect(results).error))
  {
    if objects != [] {
      var keys := OwnKeys(objects[0]);
      var results := Map((row: JsObject) => ReadObject(keys, row), objects);
      forall i | 0 <= i < |objects|
        ensures results[i].Ok? <==> ObjectConverts(keys, objects[i])
        ensures results[i].Ok? ==> |results[i].value| == |keys|
      {
        ObjectReads(keys, objects[i]);
      }
      if Collect(results).Ok? {
        RowsBuiltExactly(keys, Collect(results).value);
      }
    }
  }

  lemma {:induction false} CollectedFails(keys: seq<string>, objects: seq<JsObject>, results: seq<Result<seq<Value>, Error>>)
    requires objects != [] && keys == OwnKeys(objects[0]) && |results| == |objects|
    requires forall i | 0 <= i < |objects| :: results[i] == ReadObject(keys, objects[i])
    ensures forall error :: Collect(results) == Err(error) <==> ObjectsFail(objects, error)
  {
    if Collect(results).Err? {
      FirstObjectFails(keys, objects, results, Collect(results).error);
    }
    forall error | ObjectsFail(objects, error)
      ensures Collect(results) == Err(error)
    {
      ObjectsFailFirst(keys, objects, results, error);
    }
  }

  lemma {:induction false} FirstObjectFails(keys: seq<string>, objects: seq<JsObject>, results: seq<Result<seq<Value>, Error>>, error: Error)
    requires objects != [] && keys == OwnKeys(objects[0]) && |results| == |objects|
    requires forall i | 0 <= i < |objects| :: results[i] == ReadObject(keys, objects[i])
    ensures Collect(results) == Err(error) ==> ObjectsFail(objects, error)
  {
    if Collect(results) == Err(error) {
      var i :| 0 <= i < |results| && results[i] == Err(error) && forall j | 0 <= j < i :: results[j].Ok?;
      ObjectFailsFor(keys, objects[i], error);
      forall j | 0 <= j < i
        ensures ObjectConverts(keys, objects[j])
      {
        ObjectReads(keys, objects[j]);
      }
    }
  }

  lemma {:induction false} ObjectsFailFirst(keys: seq<string>, objects: seq<JsObject>, results: seq<Result<seq<Value>, Error>>, error: Error)
    requires objects != [] && keys == OwnKeys(objects[0]) && |results| == |objects|
    requires forall i | 0 <= i < |objects| :: results[i] == ReadObject(keys, objects[i])
    requires ObjectsFail(objects, error)
    ensures Collect(results) == Err(error)
  {
    var i :| 0 <= i < |objects| && ObjectFails(keys, objects[i], error) && forall j | 0 <= j < i :: ObjectConverts(keys, objects[j]);
    ObjectFailsFor(keys, objects[i], error);
    forall j | 0 <= j < i
      ensures results[j].Ok?
    {
      ObjectReads(keys, objects[j]);
    }
    CollectFirstError(results, i);
  }

  lemma ObjectReads(keys: seq<string>, row: JsObject)
    ensures ReadObject(keys, row).Ok? <==> ObjectConverts(keys, row)
    ensures ReadObject(keys, row).Ok? ==> |ReadObject(keys, row).value| == |keys|
  {
    var read := Map((key: string) => FromJs(Get(row, key)), keys);
    forall p | 0 <= p < |keys|
      ensures read[p].Ok? <==> Convertible(Get(row, keys[p]))
    {
      ConvertibleExactly(Get(row, keys[p]));
    }
  }

  lemma ObjectFailsFor(keys: seq<string>, row: JsObject, error: Error)
    ensures ReadObject(keys, row) == Err(error) <==> ObjectFails(keys, row, error)
  {
    var read := Map((key: string) => FromJs(Get(row, key)), keys);
    forall p | 0 <= p < |keys|
      ensures read[p] == FromJs(Get(row, keys[p])) && (read[p].Ok? <==> Convertible(Get(row, keys[p])))
      ensures read[p] == Err(error) <==> IsUnreadableFor(Get(row, keys[p]), error)
    {
      ReadExactly(Get(row, keys[p]));
      ConvertibleExactly(Get(row, keys[p]));
    }
    if ObjectFails(keys, row, error) {
      var p :| 0 <= p < |keys| && IsUnreadableFor(Get(row, keys[p]), error) && forall q | 0 <= q < p :: Convertible(Get(row, keys[q]));
      CollectFirstError(read, p);
    }
  }

  /** A safe count or rowid D1 reports is reported exactly, whatever the other is; one that is no number is no rows or no rowid. */
  lemma MetaReadExactly(changes: JsValue, lastRowId: JsValue)
    ensures ReadMeta(Meta(changes, lastRowId)).Ok?
    ensures var read := ReadMeta(Meta(changes, lastRowId)).value;
            && (!changes.Number? ==> read.rowsAffected == 0)
            && (forall count: nat | Safe(count) && changes == Number(FromInt(count)) :: read.rowsAffected == count)
            && (read.lastInsertRowid.None? <==> !lastRowId.Number?)
            && (forall rowid: Int64 | Safe(rowid) && lastRowId == Number(FromInt(rowid)) :: read.lastInsertRowid == Some(rowid))
  {
    forall count: nat | Safe(count) && changes == Number(FromInt(count))
      ensures AsU64(changes.number) == count
    {
      CountsCrossExactly(count);
    }
    forall rowid: Int64 | Safe(rowid) && lastRowId == Number(FromInt(rowid))
      ensures AsI64(lastRowId.number) == rowid
    {
      RowidsCrossExactly(rowid);
    }
  }

  /** Every value of every row of a batch is in normal form. */
  lemma BatchValuesAreNormal(reply: ResultsReply, i: nat, j: nat)
    requires ReadResults(reply).Ok? && i < |ReadResults(reply).value| && j < |ReadResults(reply).value[i].values|
    ensures NormalForm(ReadResults(reply).value[i].values[j])
  {
    var objects := reply.objects;
    var names := OwnKeys(objects[0]);
    var results := Map((row: JsObject) => ReadObject(names, row), objects);
    RowsBuiltExactly(names, Collect(results).value);
    assert results[i] == Ok(Collect(results).value[i]);
    assert Map((key: string) => FromJs(Get(objects[i], key)), names)[j] == FromJs(Get(objects[i], names[j]));
    ReadValuesRebind(Get(objects[i], names[j]));
  }
}
