/** What running a statement through the Durable Object driver promises, against what the statement itself does. */
module DoLaws {
  import opened Wrappers
  import opened Doubles
  import opened Values
  import opened Errors
  import opened JsBoundary
  import opened ErrorText
  import opened Rows
  import opened Reading
  import opened Results
  import opened Storage
  import opened DoDriver

  // ---- The drain loop

  function StepEffects(steps: seq<Step>): (effects: seq<Effect>)
    ensures |effects| == |steps| && forall i | 0 <= i < |steps| :: effects[i] == steps[i].effect
  {
    seq(|steps|, i requires 0 <= i < |steps| => steps[i].effect)
  }

  /** Everything a statement does from a position on. */
  function EffectsFrom(script: Script, position: nat): seq<Effect>
    requires position <= |script.steps|
  {
    StepEffects(script.steps[position..]) + [script.end.effect]
  }

  /** Everything a statement does, if stepped to its end. */
  function EffectsOf(script: Script): seq<Effect> {
    [script.opening] + EffectsFrom(script, 0)
  }

  /** The values of rows. */
  function ReadSteps(steps: seq<Step>): Result<seq<seq<Value>>, Error> {
    Collect(Map((step: Step) => ReadRow(step.value), steps))
  }

  /** How many of `n` rows are converted when `done` have been. */
  function Taken(n: nat, done: nat, limit: Option<nat>): (k: nat)
    ensures k <= n
  {
    if limit.None? || done + n <= limit.value then n
    else if done <= limit.value then limit.value - done
    else 0
  }

  /** One row's values before those of more rows. */
  function Before(first: Result<seq<Value>, Error>, more: Result<seq<seq<Value>>, Error>): Result<seq<seq<Value>>, Error> {
    match (first, more)
    case (Err(error), _) => Err(error)
    case (_, Err(error)) => Err(error)
    case (Ok(values), Ok(rest)) => Ok([values] + rest)
  }

  lemma ReadStepsCons(steps: seq<Step>, k: nat)
    requires 0 < k <= |steps|
    ensures ReadSteps(steps[..k]) == Before(ReadRow(steps[0].value), ReadSteps(steps[1..][..k - 1]))
  {
    var read := (step: Step) => ReadRow(step.value);
    var some := steps[..k];
    assert some[1..] == steps[1..][..k - 1];
    assert Map(read, some)[1..] == Map(read, some[1..]);
    assert Map(read, some)[0] == ReadRow(steps[0].value);
  }

  /** Of the rows wanted, the first and then the others. */
  lemma ReadWanted(steps: seq<Step>, done: nat, limit: Option<nat>)
    requires steps != [] && Wanted(done, limit)
    ensures ReadSteps(steps[..Taken(|steps|, done, limit)]) ==
              Before(ReadRow(steps[0].value), ReadSteps(steps[1..][..Taken(|steps| - 1, done + 1, limit)]))
  {
    var more := Taken(|steps| - 1, done + 1, limit);
    TakenOneMore(|steps|, done, limit);
    ReadStepsCons(steps, 1 + more);
    assert (1 + more) - 1 == more;
  }

  /**
   The drain loop's whole outcome: unless a wanted row cannot be converted, the cursor is stepped to its
   end whatever the limit, every effect of the statement has happened, and the rows are the wanted ones.
   */
  lemma {:induction false} DrainIsComplete(db: Db, script: Script, position: nat, limit: Option<nat>, rows: seq<seq<Value>>)
    requires position <= |script.steps|
    ensures DrainsFrom(db, script, position, limit, rows)
    decreases |script.steps| - position
  {
    if position == |script.steps| {
      assert script.steps[position..] == [] && ReadSteps([]) == Ok([]);
      assert EffectsFrom(script, position) == [script.end.effect];
      assert ApplyAll(db, [script.end.effect]) == Apply(db, script.end.effect);
      assert rows + [] == rows;
    } else {
      var next := Apply(db, script.steps[position].effect);
      if !Wanted(|rows|, limit) {
        DrainIsComplete(next, script, position + 1, limit, rows);
        DrainUnwanted(db, script, position, limit, rows);
      } else if ReadRow(script.steps[position].value).Ok? {
        DrainIsComplete(next, script, position + 1, limit, rows + [ReadRow(script.steps[position].value).value]);
        DrainWanted(db, script, position, limit, rows);
      } else {
        ReadStepsCons(script.steps[position..], Taken(|script.steps[position..]|, |rows|, limit));
      }
    }
  }

  /** Whether draining from a position ends as it should. */
  predicate DrainsFrom(db: Db, script: Script, position: nat, limit: Option<nat>, rows: seq<seq<Value>>)
    requires position <= |script.steps|
  {
    var rest := script.steps[position..];
    Drained(Drain(db, script, position, limit, rows), ReadSteps(rest[..Taken(|rest|, |rows|, limit)]),
            ApplyAll(db, EffectsFrom(script, position)), rows, script.end)
  }

  lemma DrainUnwanted(db: Db, script: Script, position: nat, limit: Option<nat>, rows: seq<seq<Value>>)
    requires position < |script.steps| && !Wanted(|rows|, limit)
    requires DrainsFrom(Apply(db, script.steps[position].effect), script, position + 1, limit, rows)
    ensures DrainsFrom(db, script, position, limit, rows)
  {
    var rest := script.steps[position..];
    EffectsFromCons(db, script, position);
    TakenNone(|rest|, |rows|, limit);
    assert rest[..0] == [] == script.steps[position + 1..][..0];
  }

  lemma DrainWanted(db: Db, script: Script, position: nat, limit: Option<nat>, rows: seq<seq<Value>>)
    requires position < |script.steps| && Wanted(|rows|, limit) && ReadRow(script.steps[position].value).Ok?
    requires DrainsFrom(Apply(db, script.steps[position].effect), script, position + 1, limit, rows + [ReadRow(script.steps[position].value).value])
    ensures DrainsFrom(db, script, position, limit, rows)
  {
    var rest, step := script.steps[position..], script.steps[position];
    var next, row := Apply(db, step.effect), ReadRow(step.value).value;
    EffectsFromCons(db, script, position);
    ReadWanted(rest, |rows|, limit);
    assert rest[1..] == script.steps[position + 1..];
    DrainedOneMore(Drain(next, script, position + 1, limit, rows + [row]), ReadSteps(rest[1..][..Taken(|rest| - 1, |rows| + 1, limit)]),
                   ApplyAll(next, EffectsFrom(script, position + 1)), rows, row, script.end);
  }

  lemma TakenOneMore(n: nat, done: nat, limit: Option<nat>)
    requires n > 0 && Wanted(done, limit)
    ensures Taken(n, done, limit) == 1 + Taken(n - 1, done + 1, limit)
  {
  }

  lemma TakenNone(n: nat, done: nat, limit: Option<nat>)
    requires n > 0 && !Wanted(done, limit)
    ensures Taken(n, done, limit) == Taken(n - 1, done, limit) == 0
  {
  }

  /** How draining ends when converting the wanted rows gives `read` and the statement leaves `after`. */
  predicate Drained(drained: Done<seq<seq<Value>>>, read: Result<seq<seq<Value>>, Error>, after: Db, rows: seq<seq<Value>>, end: End) {
    match read
    case Err(error) => drained.result == Err(error)
    case Ok(more) => drained == Done(after, if end.Finishes? then Ok(rows + more) else Err(DatabaseError(end.thrown)))
  }

  lemma DrainedOneMore(drained: Done<seq<seq<Value>>>, read: Result<seq<seq<Value>>, Error>, after: Db, rows: seq<seq<Value>>,
                       row: seq<Value>, end: End)
    requires Drained(drained, read, after, rows + [row], end)
    ensures Drained(drained, Before(Ok(row), read), after, rows, end)
  {
    if read.Ok? {
      assert (rows + [row]) + read.value == rows + ([row] + read.value);
    }
  }

  lemma EffectsFromCons(db: Db, script: Script, position: nat)
    requires position < |script.steps|
    ensures ApplyAll(db, EffectsFrom(script, position)) ==
              ApplyAll(Apply(db, script.steps[position].effect), EffectsFrom(script, position + 1))
  {
    var effects := EffectsFrom(script, position);
    assert effects[0] == script.steps[position].effect;
    assert effects[1..] == EffectsFrom(script, position + 1);
  }

  /** The rows from `position` up to `k` are wanted and can be converted, and row `k` is wanted and cannot. */
  predicate FirstUnreadable(script: Script, position: nat, limit: Option<nat>, done: nat, k: nat) {
    && position <= k < |script.steps| && Wanted(done + (k - position), limit)
    && ReadRow(script.steps[k].value).Err?
    && forall i | position <= i < k :: ReadRow(script.steps[i].value).Ok?
  }

  /**
   The one way the loop leaves a cursor part way: at the first wanted row that cannot be converted it returns at
   once, with the effects up to that row and none of those after it.
   */
  lemma {:induction false} DrainStopsAtAnUnreadableRow(db: Db, script: Script, position: nat, limit: Option<nat>, rows: seq<seq<Value>>, k: nat)
    requires FirstUnreadable(script, position, limit, |rows|, k)
    ensures Drain(db, script, position, limit, rows) ==
              Done(ApplyAll(db, StepEffects(script.steps[position..k + 1])), Err(ReadRow(script.steps[k].value).error))
    decreases k - position
  {
    var step := script.steps[position];
    var effects := StepEffects(script.steps[position..k + 1]);
    assert effects[0] == step.effect && effects[1..] == StepEffects(script.steps[position + 1..k + 1]);
    if position < k {
      DrainStopsAtAnUnreadableRow(Apply(db, step.effect), script, position + 1, limit, rows + [ReadRow(step.value).value], k);
    } else {
      assert effects[1..] == [];
    }
  }

  /** Whether the column names and every wanted row can be converted. */
  predicate Legible(script: Script, limit: Option<nat>) {
    ReadNames(script.names).Ok? && ReadSteps(script.steps[..Taken(|script.steps|, 0, limit)]).Ok?
  }

  /** Converting the wanted rows fails exactly when one of them is the first that cannot be converted, and then with its error. */
  lemma WantedRowsReadExactly(script: Script, limit: Option<nat>)
    ensures var read := ReadSteps(script.steps[..Taken(|script.steps|, 0, limit)]);
            && (read.Err? <==> exists k: nat :: FirstUnreadable(script, 0, limit, 0, k))
            && (forall k: nat | FirstUnreadable(script, 0, limit, 0, k) :: read == Err(ReadRow(script.steps[k].value).error))
  {
    var n := Taken(|script.steps|, 0, limit);
    var results := Map((step: Step) => ReadRow(step.value), script.steps[..n]);
    assert forall i | 0 <= i < n :: results[i] == ReadRow(script.steps[i].value);
    forall k: nat | FirstUnreadable(script, 0, limit, 0, k)
      ensures Collect(results) == Err(ReadRow(script.steps[k].value).error)
    {
      CollectFirstError(results, k);
    }
    if Collect(results).Err? {
      var k: nat :| k < n && results[k] == Err(Collect(results).error) && forall j | 0 <= j < k :: results[j].Ok?;
      assert FirstUnreadable(script, 0, limit, 0, k);
    }
  }

  /**
   Where a fetch leaves the cursor it opened, in every case: with names it cannot read, before its first row; at
   a wanted row it cannot convert, after that row; and otherwise past its end, all of the statement's effects done.
   */
  lemma CursorIsLeftExactly(db: Db, script: Script, limit: Option<nat>)
    ensures ReadNames(script.names).Err? ==> Consume(db, script, limit) == Done(db, Err(Protocol(ColumnNameNotString)))
    ensures forall k: nat | ReadNames(script.names).Ok? && FirstUnreadable(script, 0, limit, 0, k) ::
              Consume(db, script, limit) == Done(ApplyAll(db, StepEffects(script.steps[..k + 1])), Err(ReadRow(script.steps[k].value).error))
    ensures Legible(script, limit) ==> Consume(db, script, limit).db == ApplyAll(db, EffectsFrom(script, 0))
    ensures !Legible(script, limit) <==>
              ReadNames(script.names).Err? || exists k: nat :: FirstUnreadable(script, 0, limit, 0, k)
  {
    WantedRowsReadExactly(script, limit);
    forall k: nat | ReadNames(script.names).Ok? && FirstUnreadable(script, 0, limit, 0, k)
      ensures Consume(db, script, limit) == Done(ApplyAll(db, StepEffects(script.steps[..k + 1])), Err(ReadRow(script.steps[k].value).error))
    {
      DrainStopsAtAnUnreadableRow(db, script, 0, limit, [], k);
      assert script.steps[0..k + 1] == script.steps[..k + 1];
    }
    assert script.steps[0..] == script.steps;
    DrainIsComplete(db, script, 0, limit, []);
  }

  /**
   Where a fetch leaves its cursor: past its end exactly when the names and the wanted rows can be converted, else
   before its first row when the names cannot, and else just after the first wanted row that cannot.
   */
  ghost predicate LeftAt(script: Script, limit: Option<nat>, position: nat, ended: bool) {
    && (ended <==> Legible(script, limit))
    && (ended ==> position == |script.steps|)
    && (ReadNames(script.names).Err? ==> position == 0)
    && (forall k: nat | ReadNames(script.names).Ok? && FirstUnreadable(script, 0, limit, 0, k) :: position == k + 1)
  }

  /** Whether `rows` rows are converted by the time the cursor has been stepped to `position`, without failing. */
  predicate ConvertedSoFar(script: Script, limit: Option<nat>, position: nat, rows: nat) {
    && position <= |script.steps| && rows == Taken(position, 0, limit)
    && forall i | 0 <= i < rows :: ReadRow(script.steps[i].value).Ok?
  }

  lemma LeftAtARow(script: Script, limit: Option<nat>, position: nat)
    requires ReadNames(script.names).Ok? && position < |script.steps|
    requires ConvertedSoFar(script, limit, position, position) && Wanted(position, limit) && ReadRow(script.steps[position].value).Err?
    ensures LeftAt(script, limit, position + 1, false)
  {
    assert FirstUnreadable(script, 0, limit, 0, position);
    WantedRowsReadExactly(script, limit);
  }

  lemma LeftAtTheEnd(script: Script, limit: Option<nat>, rows: nat)
    requires ReadNames(script.names).Ok? && ConvertedSoFar(script, limit, |script.steps|, rows)
    ensures LeftAt(script, limit, |script.steps|, true)
  {
    WantedRowsReadExactly(script, limit);
  }

  // ---- Why a statement fails, told from the statement alone

  function StepRows(steps: seq<Step>): (rows: seq<JsValue>)
    ensures |rows| == |steps| && forall i | 0 <= i < |steps| :: rows[i] == steps[i].value
  {
    seq(|steps|, i requires 0 <= i < |steps| => steps[i].value)
  }

  /** The rows of a statement that are converted. */
  function WantedRows(script: Script, limit: Option<nat>): seq<JsValue> {
    StepRows(script.steps[..Taken(|script.steps|, 0, limit)])
  }

  lemma WantedRowsAreRead(script: Script, limit: Option<nat>)
    ensures ReadSteps(script.steps[..Taken(|script.steps|, 0, limit)]) == Collect(Map(ReadRow, WantedRows(script, limit)))
  {
    var steps := script.steps[..Taken(|script.steps|, 0, limit)];
    assert Map((step: Step) => ReadRow(step.value), steps) == Map(ReadRow, StepRows(steps));
  }

  /**
   Why a statement that runs is an error, in the order the causes are met: a column name that is no string, a wanted
   row that cannot be converted, storage breaking off, or a row that has not one value per column.
   */
  ghost predicate ScriptFails(script: Script, limit: Option<nat>, error: Error) {
    var rows := WantedRows(script, limit);
    if exists c | 0 <= c < |script.names| :: !script.names[c].JsString? then error == Protocol(ColumnNameNotString)
    else if exists i | 0 <= i < |rows| :: !RowConverts(rows[i]) then RowsFail(rows, error)
    else if script.end.Breaks? then error == DatabaseError(script.end.thrown)
    else Misfits(rows, |script.names|, error)
  }

  /** A fetch's outcome, from how reading the names and rows went and how the statement ended. */
  function Outcome(names: Result<seq<string>, Error>, read: Result<seq<seq<Value>>, Error>, end: End): Result<seq<Row>, Error> {
    match (names, read, end)
    case (Err(error), _, _) => Err(error)
    case (_, Err(error), _) => Err(error)
    case (_, _, Breaks(_, thrown)) => Err(DatabaseError(thrown))
    case (Ok(texts), Ok(values), _) => BuildRows(texts, values)
  }

  /** The same outcome, with the rows alone. */
  predicate Ends(consumed: Result<Fetched, Error>, outcome: Result<seq<Row>, Error>) {
    match outcome
    case Err(error) => consumed == Err(error)
    case Ok(rows) => consumed.Ok? && consumed.value.rows == rows
  }

  lemma ConsumeEnds(db: Db, script: Script, limit: Option<nat>)
    ensures Ends(Consume(db, script, limit).result,
                 Outcome(ReadNames(script.names), Collect(Map(ReadRow, WantedRows(script, limit))), script.end))
  {
    WantedRowsAreRead(script, limit);
    assert script.steps[0..] == script.steps;
    DrainIsComplete(db, script, 0, limit, []);
    var read := Collect(Map(ReadRow, WantedRows(script, limit)));
    if read.Ok? {
      assert [] + read.value == read.value;
    }
  }

  lemma OutcomeHolds(script: Script, limit: Option<nat>)
    ensures var rows := WantedRows(script, limit);
            var outcome := Outcome(ReadNames(script.names), Collect(Map(ReadRow, rows)), script.end);
            outcome.Ok? ==> RowsHold(script.names, rows, outcome.value)
  {
    var rows := WantedRows(script, limit);
    if ReadNames(script.names).Ok? && Collect(Map(ReadRow, rows)).Ok? {
      RowsFitExactly(script.names, rows);
    }
  }

  lemma OutcomeFailsFor(script: Script, limit: Option<nat>, error: Error)
    ensures Outcome(ReadNames(script.names), Collect(Map(ReadRow, WantedRows(script, limit))), script.end) == Err(error) <==>
              ScriptFails(script, limit, error)
  {
    var rows := WantedRows(script, limit);
    NamesReadExactly(script.names);
    RowsFailFor(rows, error);
    if ReadNames(script.names).Ok? && Collect(Map(ReadRow, rows)).Ok? {
      MisfitsFor(script.names, rows, error);
    }
  }

  /** Draining a cursor fails with its cause and no other error, and otherwise gives the rows. */
  lemma {:induction false} ConsumeExactly(db: Db, script: Script, limit: Option<nat>)
    ensures forall error :: Consume(db, script, limit).result == Err(error) <==> ScriptFails(script, limit, error)
    ensures Consume(db, script, limit).result.Ok? ==>
              RowsHold(script.names, WantedRows(script, limit), Consume(db, script, limit).result.value.rows)
  {
    ConsumeEnds(db, script, limit);
    OutcomeHolds(script, limit);
    forall error
      ensures Consume(db, script, limit).result == Err(error) <==> ScriptFails(script, limit, error)
    {
      OutcomeFailsFor(script, limit, error);
    }
  }

  /** Why a fetch fails: an argument that cannot be sent, storage refusing the text, or the statement itself. */
  ghost predicate FetchFails(backend: Backend, db: Db, sql: string, arguments: seq<Value>, limit: Option<nat>, error: Error) {
    if exists i | 0 <= i < |arguments| :: IsUnsafe(arguments[i]) then ArgumentsFail(arguments, error)
    else
      ArgumentsExactly(arguments);
      match Open(backend, db, sql, ToJsArray(arguments).value)
      case Refused(_, thrown) => error == DatabaseError(thrown)
      case Opened(script) => ScriptFails(script, limit, error)
  }

  /** A fetch fails with its cause and no other error, and otherwise returns the rows its statement gave. */
  lemma {:induction false} FetchExactly(backend: Backend, db: Db, sql: string, arguments: seq<Value>, limit: Option<nat>)
    ensures forall error :: Fetch(backend, db, sql, arguments, limit).result == Err(error) <==> FetchFails(backend, db, sql, arguments, limit, error)
    ensures Fetch(backend, db, sql, arguments, limit).result.Ok? ==>
              && Ran(backend, db, sql, arguments).Some?
              && var script := Ran(backend, db, sql, arguments).value;
                 RowsHold(script.names, WantedRows(script, limit), Fetch(backend, db, sql, arguments, limit).result.value.rows)
  {
    ArgumentsExactly(arguments);
    if Ran(backend, db, sql, arguments).Some? {
      var script := Ran(backend, db, sql, arguments).value;
      ConsumeExactly(Apply(db, script.opening), script, limit);
    }
  }

  /** What a fetch leaves, however it ends: nothing done, what was done in opening, the rows' effects as far as it stepped, or all of them. */
  lemma FetchLeavesExactly(backend: Backend, db: Db, sql: string, arguments: seq<Value>, limit: Option<nat>)
    ensures var after, sent := Fetch(backend, db, sql, arguments, limit).db, ToJsArray(arguments);
            if sent.Err? then after == db
            else
              match Open(backend, db, sql, sent.value)
              case Refused(effect, _) => after == Apply(db, effect)
              case Opened(script) => ConsumeLeaves(db, script, limit, after)
  {
    if Ran(backend, db, sql, arguments).Some? {
      var script := Ran(backend, db, sql, arguments).value;
      CursorIsLeftExactly(Apply(db, script.opening), script, limit);
      WholeEffects(db, script);
    }
  }

  ghost predicate ConsumeLeaves(db: Db, script: Script, limit: Option<nat>, after: Db) {
    var begun := Apply(db, script.opening);
    && (ReadNames(script.names).Err? ==> after == begun)
    && (forall k: nat | ReadNames(script.names).Ok? && FirstUnreadable(script, 0, limit, 0, k) ::
          after == ApplyAll(begun, StepEffects(script.steps[..k + 1])))
    && (Legible(script, limit) ==> after == ApplyAll(db, EffectsOf(script)))
  }

  /** Why an `execute` fails: as its fetch does; or, if that succeeds and rows were written, for the counters that cannot be read. */
  ghost predicate ExecuteFails(backend: Backend, db: Db, sql: string, arguments: seq<Value>, limit: Option<nat>, error: Error) {
    || FetchFails(backend, db, sql, arguments, limit, error)
    || (&& (forall other :: !FetchFails(backend, db, sql, arguments, limit, other))
        && Ran(backend, db, sql, arguments).Some?
        && var script := Ran(backend, db, sql, arguments).value;
           script.written > 0 && CountersReport(backend, ApplyAll(db, EffectsOf(script))) == Err(error))
  }

  /** An `execute` fails with its cause and no other error, and otherwise returns the rows its statement gave. */
  lemma {:induction false} ExecuteExactly(backend: Backend, db: Db, sql: string, arguments: seq<Value>, limit: Option<nat>)
    ensures forall error ::
              Execute(backend, db, sql, arguments, limit).result == Err(error) <==> ExecuteFails(backend, db, sql, arguments, limit, error)
    ensures Execute(backend, db, sql, arguments, limit).result.Ok? ==>
              && Ran(backend, db, sql, arguments).Some?
              && var script := Ran(backend, db, sql, arguments).value;
                 RowsHold(script.names, WantedRows(script, limit), Execute(backend, db, sql, arguments, limit).result.value.0)
  {
    var fetched := Fetch(backend, db, sql, arguments, limit);
    FetchExactly(backend, db, sql, arguments, limit);
    if fetched.result.Ok? {
      FetchRunsTheWholeStatement(backend, db, sql, arguments, limit);
      CountersReadExactly(backend, fetched.db);
      CountsCrossExactly(Ran(backend, db, sql, arguments).value.written);
    }
  }

  // ---- A statement on its own: no loop, no limit, no counters' query

  /** What a statement returns and leaves when it is simply run, or nothing when it fails. */
  function Plain(backend: Backend, db: Db, sql: string, arguments: seq<Value>): Option<(Db, seq<Row>)> {
    match Ran(backend, db, sql, arguments)
    case None => None
    case Some(script) =>
      match ReadNames(script.names)
      case Err(_) => None
      case Ok(names) =>
        match ReadSteps(script.steps)
        case Err(_) => None
        case Ok(values) =>
          match BuildRows(names, values)
          case Err(_) => None
          case Ok(rows) => if script.end.Finishes? then Some((ApplyAll(db, EffectsOf(script)), rows)) else None
  }

  /** The statement that runs, if its arguments can be sent and it is not refused. */
  function Ran(backend: Backend, db: Db, sql: string, arguments: seq<Value>): Option<Script> {
    match ToJsArray(arguments)
    case Err(_) => None
    case Ok(sent) =>
      match Open(backend, db, sql, sent)
      case Refused(_, _) => None
      case Opened(script) => Some(script)
  }

  /** A fetch that succeeds has run the whole statement, whatever its limit, and returns the first rows asked for. */
  lemma FetchRunsTheWholeStatement(backend: Backend, db: Db, sql: string, arguments: seq<Value>, limit: Option<nat>)
    ensures var fetched := Fetch(backend, db, sql, arguments, limit);
            fetched.result.Ok? ==>
              && Ran(backend, db, sql, arguments).Some?
              && var script := Ran(backend, db, sql, arguments).value;
                 && script.end.Finishes?
                 && fetched.db == ApplyAll(db, EffectsOf(script))
                 && fetched.result.value.written == AsU64(FromInt(script.written))
                 && ReadNames(script.names).Ok?
                 && ReadSteps(script.steps[..Taken(|script.steps|, 0, limit)]).Ok?
                 && var values := ReadSteps(script.steps[..Taken(|script.steps|, 0, limit)]).value;
                    BuildRows(ReadNames(script.names).value, values) == Ok(fetched.result.value.rows)
  {
    var ran := Ran(backend, db, sql, arguments);
    if ran.Some? {
      var script := ran.value;
      ConsumeIsComplete(Apply(db, script.opening), script, limit);
      WholeEffects(db, script);
    }
  }

  lemma WholeEffects(db: Db, script: Script)
    ensures ApplyAll(db, EffectsOf(script)) == ApplyAll(Apply(db, script.opening), EffectsFrom(script, 0))
  {
    assert EffectsOf(script)[1..] == EffectsFrom(script, 0);
  }

  lemma ConsumeIsComplete(db: Db, script: Script, limit: Option<nat>)
    ensures var names := ReadNames(script.names);
            var read := ReadSteps(script.steps[..Taken(|script.steps|, 0, limit)]);
            var consumed := Consume(db, script, limit);
            && (consumed.result.Ok? <==> names.Ok? && read.Ok? && script.end.Finishes? && BuildRows(names.value, read.value).Ok?)
            && (consumed.result.Ok? ==>
                  && consumed.db == ApplyAll(db, EffectsFrom(script, 0))
                  && consumed.result == Ok(Fetched(BuildRows(names.value, read.value).value, AsU64(FromInt(script.written)))))
  {
    assert script.steps[0..] == script.steps;
    DrainIsComplete(db, script, 0, limit, []);
    var read := ReadSteps(script.steps[..Taken(|script.steps|, 0, limit)]);
    if read.Ok? {
      assert [] + read.value == read.value;
    }
  }

  /** An unlimited fetch is the statement simply run. */
  lemma FetchIsPlain(backend: Backend, db: Db, sql: string, arguments: seq<Value>)
    ensures var fetched := Fetch(backend, db, sql, arguments, None);
            match Plain(backend, db, sql, arguments)
            case None => fetched.result.Err?
            case Some((after, rows)) =>
              && Ran(backend, db, sql, arguments).Some?
              && fetched == Done(after, Ok(Fetched(rows, AsU64(FromInt(Ran(backend, db, sql, arguments).value.written)))))
  {
    var ran := Ran(backend, db, sql, arguments);
    if ran.Some? {
      var script := ran.value;
      assert script.steps[..|script.steps|] == script.steps;
      ConsumeIsComplete(Apply(db, script.opening), script, None);
      WholeEffects(db, script);
    }
  }

  // ---- Limits

  /** When the unlimited fetch succeeds so does a limited one: the same database and count, and the first rows. */
  lemma LimitedFetchRefines(backend: Backend, db: Db, sql: string, arguments: seq<Value>, limit: nat)
    requires Fetch(backend, db, sql, arguments, None).result.Ok?
    ensures var all := Fetch(backend, db, sql, arguments, None);
            var few := Fetch(backend, db, sql, arguments, Some(limit));
            && few.result.Ok? && few.db == all.db
            && few.result.value.written == all.result.value.written
            && RefinesRows(few.result.value.rows, all.result.value.rows,
                           if limit <= |all.result.value.rows| then limit else |all.result.value.rows|)
  {
    var script := Ran(backend, db, sql, arguments).value;
    var started := Apply(db, script.opening);
    ConsumeIsComplete(started, script, None);
    ConsumeIsComplete(started, script, Some(limit));
    var n := |script.steps|;
    var k := Taken(n, 0, Some(limit));
    assert script.steps[..n] == script.steps;
    ReadFewerSteps(script.steps, k);
    var names, values := ReadNames(script.names).value, ReadSteps(script.steps).value;
    RowsBuiltExactly(names, values);
    FewerRowsRefine(names, values, k);
  }

  lemma ReadFewerSteps(steps: seq<Step>, k: nat)
    requires ReadSteps(steps).Ok? && k <= |steps|
    ensures |ReadSteps(steps).value| == |steps|
    ensures ReadSteps(steps[..k]) == Ok(ReadSteps(steps).value[..k])
  {
    var read := (step: Step) => ReadRow(step.value);
    var all, few := Map(read, steps), Map(read, steps[..k]);
    assert forall i | 0 <= i < k :: few[i] == all[i] == Ok(ReadSteps(steps).value[i]);
    assert ReadSteps(steps[..k]).value == ReadSteps(steps).value[..k];
  }

  /** So `execute` with no rows wanted does and reports exactly what it does with all of them. */
  lemma LimitedExecuteRefines(backend: Backend, db: Db, sql: string, arguments: seq<Value>, limit: nat)
    ensures var all := Execute(backend, db, sql, arguments, None);
            var few := Execute(backend, db, sql, arguments, Some(limit));
            all.result.Ok? ==>
            && few.result.Ok? && few.db == all.db && few.result.value.1 == all.result.value.1
            && RefinesRows(few.result.value.0, all.result.value.0,
                           if limit <= |all.result.value.0| then limit else |all.result.value.0|)
  {
    if Fetch(backend, db, sql, arguments, None).result.Ok? {
      LimitedFetchRefines(backend, db, sql, arguments, limit);
    }
  }

  // ---- Counts

  /** The count the statement itself set, if it set one. */
  function OwnCount(script: Script): Option<Int64> {
    LastCount(EventsOfAll(EffectsOf(script)))
  }

  /** The rowid of the last row the statement itself inserted, if it inserted any. */
  function OwnRowid(script: Script): Option<Int64> {
    LastRowid(EventsOfAll(EffectsOf(script)))
  }

  /**
   What an `execute` that succeeds reports. One that wrote nothing reports nothing, however the counters
   stand. One that wrote reports its own count if it set one, and the rowid of its own last insert or else
   of the last insert before it; and its effect on the database is the statement's alone.
   */
  lemma ExecuteReportsTheStatement(backend: Backend, db: Db, sql: string, arguments: seq<Value>, limit: Option<nat>)
    ensures var done := Execute(backend, db, sql, arguments, limit);
            done.result.Ok? ==>
              && Ran(backend, db, sql, arguments).Some?
              && ReportsTheStatement(db, Ran(backend, db, sql, arguments).value, done.db, done.result.value.1)
  {
    FetchRunsTheWholeStatement(backend, db, sql, arguments, limit);
    ReportFollowsTheFetch(backend, db, sql, arguments, limit);
    var fetched, done := Fetch(backend, db, sql, arguments, limit), Execute(backend, db, sql, arguments, limit);
    if done.result.Ok? {
      var script := Ran(backend, db, sql, arguments).value;
      CountsCrossExactly(script.written);
      assert ReportsCounters(fetched.db, script.written, done.result.value.1);
      ReportIsTheStatements(db, script, done.result.value.1);
    }
  }

  /** The report is of the database the fetch leaves: its counters, if any row was written. */
  lemma ReportFollowsTheFetch(backend: Backend, db: Db, sql: string, arguments: seq<Value>, limit: Option<nat>)
    ensures var fetched, done := Fetch(backend, db, sql, arguments, limit), Execute(backend, db, sql, arguments, limit);
            done.result.Ok? ==>
              && fetched.result.Ok? && done.db == fetched.db
              && ReportsCounters(fetched.db, fetched.result.value.written, done.result.value.1)
  {
    CountersReadExactly(backend, Fetch(backend, db, sql, arguments, limit).db);
  }

  /** What is reported of a database that a statement which wrote so many rows has left. */
  predicate ReportsCounters(db: Db, written: nat, reported: QueryResult) {
    if written == 0 then reported == NOTHING
    else reported.rowsAffected == db.changes && reported.lastInsertRowid == Some(db.lastRowid)
  }

  lemma ReportIsTheStatements(db: Db, script: Script, reported: QueryResult)
    requires ReportsCounters(ApplyAll(db, EffectsOf(script)), script.written, reported)
    ensures ReportsTheStatement(db, script, ApplyAll(db, EffectsOf(script)), reported)
  {
    CountersAfterAll(db, EffectsOf(script));
  }

  /** A statement run on `db` left `after`, and this is what it did. */
  predicate ReportsTheStatement(db: Db, script: Script, after: Db, reported: QueryResult) {
    && after == ApplyAll(db, EffectsOf(script))
    && after.events == db.events + EventsOfAll(EffectsOf(script))
    && if script.written == 0 then reported == QueryResult(0, None)
       else
         && reported.rowsAffected == OwnCount(script).GetOr(db.changes)
         && reported.lastInsertRowid == Some(OwnRowid(script).GetOr(db.lastRowid))
  }

  /**
   A statement that wrote rows reports its own count exactly when it set one, or none stood before. So the
   claim that no older count is reported rests on this of storage: a statement that writes sets `changes()`.
   */
  lemma CountIsOwnExactly(backend: Backend, db: Db, sql: string, arguments: seq<Value>, limit: Option<nat>)
    ensures var done, ran := Execute(backend, db, sql, arguments, limit), Ran(backend, db, sql, arguments);
            done.result.Ok? && ran.Some? && ran.value.written > 0 ==>
              (done.result.value.1.rowsAffected == OwnCount(ran.value).GetOr(0) <==> OwnCount(ran.value).Some? || db.changes == 0)
  {
    ExecuteReportsTheStatement(backend, db, sql, arguments, limit);
  }

  /** A statement that wrote rows and inserted none reports the rowid that stood before. */
  lemma OlderRowidReported(backend: Backend, db: Db, sql: string, arguments: seq<Value>, limit: Option<nat>)
    ensures var done, ran := Execute(backend, db, sql, arguments, limit), Ran(backend, db, sql, arguments);
            done.result.Ok? && ran.Some? && ran.value.written > 0 && OwnRowid(ran.value).None? ==>
              done.result.value.1.lastInsertRowid == Some(db.lastRowid)
  {
    ExecuteReportsTheStatement(backend, db, sql, arguments, limit);
  }

  /** A storage that reports rows written by a statement that sets no counter makes `execute` report the count before it. */
  lemma AnOlderCountIsReported(backend: Backend, db: Db, sql: string, arguments: seq<Value>, script: Script)
    requires Ran(backend, db, sql, arguments) == Some(script)
    requires script == Script([], NoEffect(db), [], Finishes(NoEffect(db)), 1)
    requires backend.probe(db).Answers? && 0 <= db.changes && Safe(db.changes) && Safe(db.lastRowid)
    ensures OwnCount(script).None?
    ensures var done := Execute(backend, db, sql, arguments, None);
            done.db == db && done.result.Ok? && done.result.value.1.rowsAffected == db.changes
  {
    SilentScript(db, script);
    ExecuteSucceedsExactly(backend, db, sql, arguments);
    ExecuteReportsTheStatement(backend, db, sql, arguments, None);
  }

  lemma SilentScript(db: Db, script: Script)
    requires script == Script([], NoEffect(db), [], Finishes(NoEffect(db)), 1)
    ensures ApplyAll(db, EffectsOf(script)) == db && OwnCount(script).None?
    ensures ReadNames(script.names) == Ok([]) && ReadSteps(script.steps) == Ok([]) && BuildRows([], []) == Ok([])
  {
    var effect := NoEffect(db);
    NoEffectChangesNothing(db);
    assert EffectsOf(script) == [effect, effect];
    assert [effect, effect][1..] == [effect] && [effect][1..] == [];
    assert EventsOf(effect) == [];
    assert EventsOfAll([effect]) == [];
    assert EventsOfAll([effect, effect]) == [];
    assert ApplyAll(db, [effect]) == db;
  }

  /** `execute` succeeds exactly when the statement does and, if it wrote, the counters can be read afterwards. */
  lemma ExecuteSucceedsExactly(backend: Backend, db: Db, sql: string, arguments: seq<Value>)
    ensures var done := Execute(backend, db, sql, arguments, None);
            && (done.result.Ok? <==> Plain(backend, db, sql, arguments).Some? && CountersReadable(backend, db, sql, arguments))
            && (done.result.Ok? ==>
                  && done.db == Plain(backend, db, sql, arguments).value.0
                  && done.result.value.0 == Plain(backend, db, sql, arguments).value.1)
  {
    FetchIsPlain(backend, db, sql, arguments);
    var fetched := Fetch(backend, db, sql, arguments, None);
    if fetched.result.Ok? {
      CountersReadExactly(backend, fetched.db);
      CountsCrossExactly(Ran(backend, db, sql, arguments).value.written);
    }
  }

  /** Whether the counters' query is answered after the statement, with numbers the boundary can carry. */
  predicate CountersReadable(backend: Backend, db: Db, sql: string, arguments: seq<Value>) {
    match (Ran(backend, db, sql, arguments), Plain(backend, db, sql, arguments))
    case (Some(script), Some((after, _))) =>
      script.written > 0 ==> backend.probe(after).Answers? && 0 <= after.changes && Safe(after.changes) && Safe(after.lastRowid)
    case _ => true
  }

  // ---- What rows hold

  /** Every value of every row a fetch returns is in normal form: its integers are safe. */
  lemma FetchedValuesAreNormal(backend: Backend, db: Db, sql: string, arguments: seq<Value>, limit: Option<nat>, i: nat, j: nat)
    requires Fetch(backend, db, sql, arguments, limit).result.Ok?
    requires i < |Fetch(backend, db, sql, arguments, limit).result.value.rows|
    requires j < |Fetch(backend, db, sql, arguments, limit).result.value.rows[i].values|
    ensures NormalForm(Fetch(backend, db, sql, arguments, limit).result.value.rows[i].values[j])
  {
    FetchRunsTheWholeStatement(backend, db, sql, arguments, limit);
    var script := Ran(backend, db, sql, arguments).value;
    var steps := script.steps[..Taken(|script.steps|, 0, limit)];
    var values := ReadSteps(steps).value;
    RowsBuiltExactly(ReadNames(script.names).value, values);
    assert Map((step: Step) => ReadRow(step.value), steps)[i] == ReadRow(steps[i].value);
    var items := steps[i].value.items;
    assert Map(FromJs, items)[j] == FromJs(items[j]);
    ReadValuesRebind(items[j]);
  }
}
