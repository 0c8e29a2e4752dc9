/** Column names and rows as JavaScript arrays, which both drivers read the same way. */
module Reading {
  import opened Wrappers
  import opened Values
  import opened Errors
  import opened Unicode
  import opened JsBoundary
  import opened Rows

  function ReadName(name: JsValue): Result<string, Error> {
    match AsString(name)
    case Some(text) => Ok(text)
    case None => Err(Protocol(ColumnNameNotString))
  }

  function ReadNames(names: seq<JsValue>): Result<seq<string>, Error> {
    Collect(Map(ReadName, names))
  }

  function ReadValues(cells: seq<JsValue>): Result<seq<Value>, Error> {
    Collect(Map(FromJs, cells))
  }

  function ReadRow(row: JsValue): Result<seq<Value>, Error> {
    if row.JsArray? then ReadValues(row.items) else Err(Protocol(RowNotArray))
  }

  // ---- What is read, and why not, told from the JavaScript values

  /** Column names can be read exactly when each is a string, and then are those strings. */
  lemma NamesReadExactly(names: seq<JsValue>)
    ensures ReadNames(names).Ok? <==> forall i | 0 <= i < |names| :: names[i].JsString?
    ensures ReadNames(names).Ok? ==>
              |ReadNames(names).value| == |names| && forall i | 0 <= i < |names| :: ReadNames(names).value[i] == FromUtf16(names[i].units)
    ensures ReadNames(names).Err? ==> ReadNames(names).error == Protocol(ColumnNameNotString)
  {
    assert forall i | 0 <= i < |names| :: Map(ReadName, names)[i] == ReadName(names[i]);
  }

  /** Whether a row is an array of values that can all be converted. */
  predicate RowConverts(row: JsValue) {
    row.JsArray? && forall c | 0 <= c < |row.items| :: Convertible(row.items[c])
  }

  /** Whether a row is an array of what these values were read from. */
  predicate RowHolds(row: JsValue, values: seq<Value>) {
    row.JsArray? && |values| == |row.items| && forall c | 0 <= c < |values| :: IsReadAs(row.items[c], values[c])
  }

  /** Why a row cannot be read: it is no array, or for its first value that cannot be converted. */
  ghost predicate RowFails(row: JsValue, error: Error) {
    if !row.JsArray? then error == Protocol(RowNotArray)
    else exists c | 0 <= c < |row.items| :: IsUnreadableFor(row.items[c], error) && forall d | 0 <= d < c :: Convertible(row.items[d])
  }

  lemma {:induction false} RowReadExactly(row: JsValue)
    ensures forall values :: ReadRow(row) == Ok(values) <==> RowHolds(row, values)
    ensures forall error :: ReadRow(row) == Err(error) <==> RowFails(row, error)
    ensures ReadRow(row).Ok? <==> RowConverts(row)
  {
    if row.JsArray? {
      ValuesReadExactly(row.items);
    }
  }

  lemma {:induction false} ValuesReadExactly(items: seq<JsValue>)
    ensures forall values :: ReadValues(items) == Ok(values) <==> RowHolds(JsArray(items), values)
    ensures forall error :: ReadValues(items) == Err(error) <==> RowFails(JsArray(items), error)
    ensures ReadValues(items).Ok? <==> RowConverts(JsArray(items))
  {
    var read := Map(FromJs, items);
    forall c | 0 <= c < |items|
      ensures read[c] == FromJs(items[c]) && (read[c].Ok? <==> Convertible(items[c]))
      ensures forall value :: read[c] == Ok(value) <==> IsReadAs(items[c], value)
      ensures forall error :: read[c] == Err(error) <==> IsUnreadableFor(items[c], error)
    {
      ReadExactly(items[c]);
      ConvertibleExactly(items[c]);
    }
    forall values | RowHolds(JsArray(items), values)
      ensures Collect(read) == Ok(values)
    {
      CollectAll(read, values);
    }
    forall error | RowFails(JsArray(items), error)
      ensures Collect(read) == Err(error)
    {
      var c :| 0 <= c < |items| && IsUnreadableFor(items[c], error) && forall d | 0 <= d < c :: Convertible(items[d]);
      CollectFirstError(read, c);
    }
  }

  /** Why rows cannot be read: for the first that cannot. */
  ghost predicate RowsFail(rows: seq<JsValue>, error: Error) {
    exists i | 0 <= i < |rows| :: RowFails(rows[i], error) && forall j | 0 <= j < i :: RowConverts(rows[j])
  }

  lemma {:induction false} RowsReadExactly(rows: seq<JsValue>)
    ensures Collect(Map(ReadRow, rows)).Ok? <==> forall i | 0 <= i < |rows| :: RowConverts(rows[i])
    ensures Collect(Map(ReadRow, rows)).Ok? ==>
              var values := Collect(Map(ReadRow, rows)).value;
              |values| == |rows| && forall i | 0 <= i < |rows| :: RowHolds(rows[i], values[i])
    ensures forall error :: Collect(Map(ReadRow, rows)) == Err(error) <==> RowsFail(rows, error)
  {
    var read := Map(ReadRow, rows);
    forall i | 0 <= i < |rows|
      ensures read[i] == ReadRow(rows[i]) && (read[i].Ok? <==> RowConverts(rows[i]))
      ensures forall values :: read[i] == Ok(values) <==> RowHolds(rows[i], values)
      ensures forall error :: read[i] == Err(error) <==> RowFails(rows[i], error)
    {
      RowReadExactly(rows[i]);
    }
    forall error | RowsFail(rows, error)
      ensures Collect(read) == Err(error)
    {
      var i :| 0 <= i < |rows| && RowFails(rows[i], error) && forall j | 0 <= j < i :: RowConverts(rows[j]);
      CollectFirstError(read, i);
    }
  }

  lemma RowsFailFor(rows: seq<JsValue>, error: Error)
    ensures Collect(Map(ReadRow, rows)) == Err(error) <==> RowsFail(rows, error)
    ensures Collect(Map(ReadRow, rows)).Ok? <==> forall i | 0 <= i < |rows| :: RowConverts(rows[i])
  {
    RowsReadExactly(rows);
  }

  function CellCount(row: JsValue): nat {
    if row.JsArray? then |row.items| else 0
  }

  /** Why rows that can be read are not a result: for the first that has not one value per column. */
  ghost predicate Misfits(rows: seq<JsValue>, width: nat, error: Error) {
    exists i | 0 <= i < |rows| ::
      && CellCount(rows[i]) != width && error == Protocol(RowWidth(CellCount(rows[i]), width))
      && forall j | 0 <= j < i :: CellCount(rows[j]) == width
  }

  /** Whether the rows of a result hold what JavaScript rows under JavaScript names do, each column typed by the values in it. */
  ghost predicate RowsHold(names: seq<JsValue>, rows: seq<JsValue>, built: seq<Row>) {
    && |built| == |rows|
    && forall i | 0 <= i < |built| ::
         RowHolds(rows[i], built[i].values) && WellFormed(built[i]) && ColumnsHold(names, ValuesOf(built), built[i].columns)
  }

  predicate ColumnsHold(names: seq<JsValue>, values: seq<seq<Value>>, columns: seq<Column>) {
    && |columns| == |names|
    && forall c | 0 <= c < |names| ::
         && names[c].JsString? && columns[c].name == FromUtf16(names[c].units)
         && columns[c].typeInfo == ColumnType(values, c)
  }

  function ValuesOf(rows: seq<Row>): (values: seq<seq<Value>>)
    ensures |values| == |rows| && forall i | 0 <= i < |rows| :: values[i] == rows[i].values
  {
    seq(|rows|, i requires 0 <= i < |rows| => rows[i].values)
  }

  /** Rows and names that have been read make a result that holds them, unless one does not fit. */
  lemma {:induction false} RowsFitExactly(names: seq<JsValue>, rows: seq<JsValue>)
    requires ReadNames(names).Ok? && Collect(Map(ReadRow, rows)).Ok?
    ensures var built := BuildRows(ReadNames(names).value, Collect(Map(ReadRow, rows)).value);
            && (built.Ok? <==> forall i | 0 <= i < |rows| :: CellCount(rows[i]) == |names|)
            && (built.Ok? ==> RowsHold(names, rows, built.value))
            && forall error :: built == Err(error) <==> Misfits(rows, |names|, error)
  {
    NamesReadExactly(names);
    RowsReadExactly(rows);
    BuiltFrom(names, ReadNames(names).value, rows, Collect(Map(ReadRow, rows)).value);
  }

  lemma {:induction false} BuiltFrom(names: seq<JsValue>, texts: seq<string>, rows: seq<JsValue>, values: seq<seq<Value>>)
    requires |texts| == |names| && forall c | 0 <= c < |names| :: names[c].JsString? && texts[c] == FromUtf16(names[c].units)
    requires |values| == |rows| && forall i | 0 <= i < |rows| :: RowHolds(rows[i], values[i])
    ensures var built := BuildRows(texts, values);
            && (built.Ok? <==> forall i | 0 <= i < |rows| :: CellCount(rows[i]) == |names|)
            && (built.Ok? ==> RowsHold(names, rows, built.value))
            && forall error :: built == Err(error) <==> Misfits(rows, |names|, error)
  {
    RowsBuiltExactly(texts, values);
    var built := BuildRows(texts, values);
    assert forall i | 0 <= i < |rows| :: |values[i]| == CellCount(rows[i]);
    if built.Ok? {
      assert ValuesOf(built.value) == values;
    }
  }

  lemma MisfitsFor(names: seq<JsValue>, rows: seq<JsValue>, error: Error)
    requires ReadNames(names).Ok? && Collect(Map(ReadRow, rows)).Ok?
    ensures BuildRows(ReadNames(names).value, Collect(Map(ReadRow, rows)).value) == Err(error) <==> Misfits(rows, |names|, error)
  {
    RowsFitExactly(names, rows);
  }
}
