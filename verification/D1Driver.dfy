/** D1's side: reading a result as arrays, and reading the same result as a batch's objects. */
module D1Driver {
  import opened Wrappers
  import opened Unicode
  import opened Values
  import opened Errors
  import opened ErrorText
  import opened JsBoundary
  import opened Rows
  import opened Reading
  import opened D1Objects

  /** What `raw({ columnNames: true })` does. */
  datatype RawReply = RawThrew(thrown: Thrown) | RawRejected(thrown: Thrown) | RawResolved(value: JsValue)

  /** The rows of a result whose first item lists the names; none, if it has no items. */
  function ReadItems(items: seq<JsValue>, limit: Option<nat>): Result<seq<Row>, Error> {
    if items == [] then Ok([])
    else if !items[0].JsArray? then Err(Protocol(RowNotArray))
    else
      match ReadNames(items[0].items)
      case Err(error) => Err(error)
      case Ok(names) =>
        match Collect(Map(ReadRow, First(items[1..], limit)))
        case Err(error) => Err(error)
        case Ok(values) => BuildRows(names, values)
  }

  function Fetch(reply: RawReply, limit: Option<nat>): Result<seq<Row>, Error> {
    match reply
    case RawThrew(thrown) => Err(DatabaseError(thrown))
    case RawRejected(thrown) => Err(DatabaseError(thrown))
    case RawResolved(value) => if value.JsArray? then ReadItems(value.items, limit) else Err(Protocol(ResultNotArray))
  }

  /** A JavaScript array's iterator. */
  class ArrayIterator {
    const items: seq<JsValue>
    var position: nat

    constructor (items: seq<JsValue>)
      ensures this.items == items && position == 0
    {
      this.items := items;
      position := 0;
    }

    method Next() returns (item: Option<JsValue>)
      requires position <= |items|
      modifies this
      ensures position <= |items|
      ensures item == if old(position) < |items| then Some(items[old(position)]) else None
      ensures position == if old(position) < |items| then old(position) + 1 else old(position)
    {
      if position < |items| {
        item := Some(items[position]);
        position := position + 1;
      } else {
        item := None;
      }
    }
  }

  /** Reads a result as arrays, at most `limit` rows of it. */
  method FetchRows(reply: RawReply, limit: Option<nat>) returns (r: Result<seq<Row>, Error>)
    ensures r == Fetch(reply, limit)
  {
    if !reply.RawResolved? {
      return Err(DatabaseError(reply.thrown));
    }
    if !reply.value.JsArray? {
      return Err(Protocol(ResultNotArray));
    }
    var result := new ArrayIterator(reply.value.items);
    var header := result.Next();
    if header.None? {
      return Ok([]);
    }
    if !header.value.JsArray? {
      return Err(Protocol(RowNotArray));
    }
    var names := ReadNames(header.value.items);
    if names.Err? {
      return Err(names.error);
    }
    var rows := TakeRows(result, limit);
    if rows.Err? {
      return Err(rows.error);
    }
    return BuildRows(names.value, rows.value);
  }

  /** The rows after the header, taken one at a time until there are as many as wanted. */
  method TakeRows(result: ArrayIterator, limit: Option<nat>) returns (r: Result<seq<seq<Value>>, Error>)
    requires result.position == 1 <= |result.items|
    modifies result
    ensures r == Collect(Map(ReadRow, First(result.items[1..], limit)))
  {
    var rows: seq<seq<Value>> := [];
    ghost var wanted := Map(ReadRow, First(result.items[1..], limit));
    while limit.None? || |rows| < limit.value
      invariant result.position == 1 + |rows| <= |result.items|
      invariant |rows| <= |wanted| && forall i | 0 <= i < |rows| :: wanted[i] == Ok(rows[i])
      decreases |result.items| - result.position
    {
      var item := result.Next();
      if item.None? {
        break;
      }
      var row := ReadRow(item.value);
      if row.Err? {
        CollectFirstError(wanted, |rows|);
        return Err(row.error);
      }
      rows := rows + [row.value];
    }
    CollectAll(wanted, rows);
    return Ok(rows);
  }

  // ---- What is read, and why not, from D1's reply alone

  /** The rows of a result that are wanted, after its header. */
  function WantedRows(items: seq<JsValue>, limit: Option<nat>): seq<JsValue>
    requires items != []
  {
    First(items[1..], limit)
  }

  /** Whether a reply can be read: an array, empty or with names first and then arrays of convertible values, one per name, as far as they are wanted. */
  predicate CanBeRead(reply: RawReply, limit: Option<nat>) {
    && reply.RawResolved? && reply.value.JsArray?
    && var items := reply.value.items;
       items == [] ||
       (&& items[0].JsArray? && (forall c | 0 <= c < |items[0].items| :: items[0].items[c].JsString?)
        && forall i | 0 <= i < |WantedRows(items, limit)| ::
             RowConverts(WantedRows(items, limit)[i]) && CellCount(WantedRows(items, limit)[i]) == |items[0].items|)
  }

  /** Why a reply cannot be read. */
  ghost predicate FetchFails(reply: RawReply, limit: Option<nat>, error: Error) {
    match reply
    case RawThrew(thrown) => error == DatabaseError(thrown)
    case RawRejected(thrown) => error == DatabaseError(thrown)
    case RawResolved(value) => if value.JsArray? then ItemsFail(value.items, limit, error) else error == Protocol(ResultNotArray)
  }

  ghost predicate ItemsFail(items: seq<JsValue>, limit: Option<nat>, error: Error) {
    && items != []
    && if !items[0].JsArray? then error == Protocol(RowNotArray)
       else if exists c | 0 <= c < |items[0].items| :: !items[0].items[c].JsString? then error == Protocol(ColumnNameNotString)
       else
         var rows := WantedRows(items, limit);
         if forall i | 0 <= i < |rows| :: RowConverts(rows[i]) then Misfits(rows, |items[0].items|, error) else RowsFail(rows, error)
  }

  /** Every reply, at every limit: read when it is readable, and then holding what it lists; and otherwise failing for the reason it gives. */
  lemma {:induction false} FetchExactly(reply: RawReply, limit: Option<nat>)
    ensures Fetch(reply, limit).Ok? <==> CanBeRead(reply, limit)
    ensures Fetch(reply, limit).Ok? ==>
              if reply.value.items == [] then Fetch(reply, limit).value == []
              else RowsHold(reply.value.items[0].items, WantedRows(reply.value.items, limit), Fetch(reply, limit).value)
    ensures forall error :: Fetch(reply, limit) == Err(error) <==> FetchFails(reply, limit, error)
  {
    if reply.RawResolved? && reply.value.JsArray? && reply.value.items != [] {
      ItemsRead(reply.value.items, limit);
      forall error
        ensures ReadItems(reply.value.items, limit) == Err(error) <==> ItemsFail(reply.value.items, limit, error)
      {
        ItemsFailFor(reply.value.items, limit, error);
      }
    }
  }

  lemma ItemsRead(items: seq<JsValue>, limit: Option<nat>)
    requires items != []
    ensures ReadItems(items, limit).Ok? <==> CanBeRead(RawResolved(JsArray(items)), limit)
    ensures ReadItems(items, limit).Ok? ==> RowsHold(items[0].items, WantedRows(items, limit), ReadItems(items, limit).value)
  {
    if items[0].JsArray? {
      var names, rows := items[0].items, WantedRows(items, limit);
      NamesReadExactly(names);
      RowsReadExactly(rows);
      if ReadNames(names).Ok? && Collect(Map(ReadRow, rows)).Ok? {
        RowsFitExactly(names, rows);
      }
    }
  }

  lemma ItemsFailFor(items: seq<JsValue>, limit: Option<nat>, error: Error)
    requires items != []
    ensures ReadItems(items, limit) == Err(error) <==> ItemsFail(items, limit, error)
  {
    if items[0].JsArray? {
      var names, rows := items[0].items, WantedRows(items, limit);
      NamesReadExactly(names);
      RowsFailFor(rows, error);
      if ReadNames(names).Ok? && Collect(Map(ReadRow, rows)).Ok? {
        MisfitsFor(names, rows, error);
      }
    }
  }

  // ---- Limits

  /** When the unlimited fetch succeeds so does a limited one, with the first rows. */
  lemma LimitedFetchRefines(reply: RawReply, limit: nat)
    requires Fetch(reply, None).Ok?
    ensures Fetch(reply, Some(limit)).Ok?
    ensures RefinesRows(Fetch(reply, Some(limit)).value, Fetch(reply, None).value,
                        if limit <= |Fetch(reply, None).value| then limit else |Fetch(reply, None).value|)
  {
    var items := reply.value.items;
    if items != [] {
      var rows := items[1..];
      var names := ReadNames(items[0].items).value;
      var values := Collect(Map(ReadRow, rows)).value;
      RowsBuiltExactly(names, values);
      var k := if limit <= |values| then limit else |values|;
      var some := Map(ReadRow, First(rows, Some(limit)));
      assert forall i | 0 <= i < k :: some[i] == Map(ReadRow, rows)[i];
      CollectAll(some, values[..k]);
      FewerRowsRefine(names, values, k);
    }
  }

  /** Every value of every row is in normal form. */
  lemma FetchedValuesAreNormal(reply: RawReply, limit: Option<nat>, i: nat, j: nat)
    requires Fetch(reply, limit).Ok? && i < |Fetch(reply, limit).value| && j < |Fetch(reply, limit).value[i].values|
    ensures NormalForm(Fetch(reply, limit).value[i].values[j])
  {
    var items := reply.value.items;
    var rows := First(items[1..], limit);
    var values := Collect(Map(ReadRow, rows)).value;
    RowsBuiltExactly(ReadNames(items[0].items).value, values);
    assert Map(ReadRow, rows)[i] == ReadRow(rows[i]) == Ok(values[i]);
    var cells := rows[i].items;
    assert Map(FromJs, cells)[j] == FromJs(cells[j]);
    ReadValuesRebind(cells[j]);
  }

  // ---- The two readings of one result

  /** A result with these names and cells, as arrays. */
  function AsArrays(names: seq<string>, cells: seq<seq<JsValue>>): RawReply {
    RawResolved(JsArray([JsArray(Map((name: string) => JsString(ToUtf16(name)), names))] + Map((row: seq<JsValue>) => JsArray(row), cells)))
  }

  /** The same result as a batch's objects. */
  function AsObjects(names: seq<string>, cells: seq<seq<JsValue>>): ResultsReply
    requires forall i | 0 <= i < |cells| :: |cells[i]| == |names|
  {
    Objects(seq(|cells|, i requires 0 <= i < |cells| => RowObject(names, cells[i])))
  }

  /** Whether a column is the last of its name. */
  predicate Survives(names: seq<string>, column: nat)
    requires column < |names|
  {
    LastIndex(names, names[column]) == Some(column)
  }

  /** The arrays read as the cells read one by one. */
  lemma ArraysRead(names: seq<string>, cells: seq<seq<JsValue>>)
    ensures Fetch(AsArrays(names, cells), None) ==
              match Collect(Map(ReadValues, cells))
              case Err(error) => Err(error)
              case Ok(values) => BuildRows(names, values)
  {
    var header := Map((name: string) => JsString(ToUtf16(name)), names);
    var rows := Map((row: seq<JsValue>) => JsArray(row), cells);
    var items := [JsArray(header)] + rows;
    assert items[1..] == rows;
    forall i | 0 <= i < |names|
      ensures Map(ReadName, header)[i] == Ok(names[i])
    {
      Utf16RoundTrip(names[i]);
    }
    CollectAll(Map(ReadName, header), names);
    assert Map(ReadRow, rows) == Map(ReadValues, cells);
  }

  /** The arrays can be read exactly when every cell can. */
  lemma ArraysReadExactly(names: seq<string>, cells: seq<seq<JsValue>>)
    requires forall i | 0 <= i < |cells| :: |cells[i]| == |names|
    ensures Fetch(AsArrays(names, cells), None).Ok? <==> forall i, c | 0 <= i < |cells| && 0 <= c < |names| :: FromJs(cells[i][c]).Ok?
    ensures Fetch(AsArrays(names, cells), None).Ok? ==>
              exists values :: ReadAs(cells, values) && Fetch(AsArrays(names, cells), None) == BuildRows(names, values)
  {
    ArraysRead(names, cells);
    var results := Map(ReadValues, cells);
    forall i | 0 <= i < |cells|
      ensures results[i].Ok? <==> forall c | 0 <= c < |names| :: FromJs(cells[i][c]).Ok?
    {
      assert results[i] == Collect(Map(FromJs, cells[i]));
      assert forall c | 0 <= c < |names| :: Map(FromJs, cells[i])[c] == FromJs(cells[i][c]);
    }
    if Collect(results).Ok? {
      var values := Collect(results).value;
      forall i | 0 <= i < |cells|
        ensures |values[i]| == |cells[i]| && forall c | 0 <= c < |cells[i]| :: FromJs(cells[i][c]) == Ok(values[i][c])
      {
        assert results[i] == Ok(values[i]);
        assert forall c | 0 <= c < |cells[i]| :: Map(FromJs, cells[i])[c] == FromJs(cells[i][c]);
      }
      assert ReadAs(cells, values);
      RowsBuiltExactly(names, values);
    }
  }

  /** The cells, each read. */
  ghost predicate ReadAs(cells: seq<seq<JsValue>>, values: seq<seq<Value>>) {
    && |values| == |cells|
    && forall i | 0 <= i < |cells| ::
         && |values[i]| == |cells[i]|
         && forall c | 0 <= c < |cells[i]| :: FromJs(cells[i][c]) == Ok(values[i][c])
  }
}
