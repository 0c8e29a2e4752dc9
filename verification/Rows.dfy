/** Building rows that share their columns, and finding a column by name. */
module Rows {
  import opened Wrappers
  import opened Values
  import opened Errors

  datatype Column = Column(name: string, ordinal: nat, typeInfo: TypeInfo)

  /** A row of either driver; every row of a result has the result's columns. */
  datatype Row = Row(columns: seq<Column>, values: seq<Value>)

  /** The type of the first non-NULL value a column has, skipping rows too short to have one. */
  function ColumnType(rows: seq<seq<Value>>, ordinal: nat): TypeInfo {
    if rows == [] then NullType
    else if ordinal < |rows[0]| && TypeOf(rows[0][ordinal]) != NullType then TypeOf(rows[0][ordinal])
    else ColumnType(rows[1..], ordinal)
  }

  function Columns(names: seq<string>, rows: seq<seq<Value>>): seq<Column> {
    seq(|names|, i requires 0 <= i < |names| => Column(names[i], i, ColumnType(rows, i)))
  }

  function BuildRow(columns: seq<Column>, values: seq<Value>): Result<Row, Error> {
    if |values| != |columns| then Err(Protocol(RowWidth(|values|, |columns|))) else Ok(Row(columns, values))
  }

  function BuildRows(names: seq<string>, rows: seq<seq<Value>>): Result<seq<Row>, Error> {
    var columns := Columns(names, rows);
    Collect(Map(values => BuildRow(columns, values), rows))
  }

  /** The last position of a name. */
  function LastIndex(names: seq<string>, name: string): Option<nat> {
    if names == [] then None
    else if names[|names| - 1] == name then Some(|names| - 1)
    else LastIndex(names[..|names| - 1], name)
  }

  function Names(columns: seq<Column>): (names: seq<string>)
    ensures |names| == |columns| && forall i | 0 <= i < |columns| :: names[i] == columns[i].name
  {
    seq(|columns|, i requires 0 <= i < |columns| => columns[i].name)
  }

  /** The ordinal a name stands for: the last column that has it. */
  function IndexOf(row: Row, name: string): Result<nat, Error> {
    match LastIndex(Names(row.columns), name)
    case Some(index) => Ok(index)
    case None => Err(ColumnNotFound(name))
  }

  predicate WellFormed(row: Row) {
    |row.values| == |row.columns| && forall i | 0 <= i < |row.columns| :: row.columns[i].ordinal == i
  }

  /** The value and column a name finds in a row. */
  function Lookup(row: Row, name: string): Result<(Value, TypeInfo), Error>
    requires WellFormed(row)
  {
    LastIndexIsLast(Names(row.columns), name);
    match IndexOf(row, name)
    case Ok(index) => Ok((row.values[index], row.columns[index].typeInfo))
    case Err(error) => Err(error)
  }

  // ---- What building and lookup promise

  lemma {:induction false} LastIndexIsLast(names: seq<string>, name: string)
    ensures LastIndex(names, name).None? <==> name !in names
    ensures LastIndex(names, name).Some? ==>
              var i := LastIndex(names, name).value;
              i < |names| && names[i] == name && forall j | i < j < |names| :: names[j] != name
  {
    if names == [] {
    } else {
      var prefix := names[..|names| - 1];
      LastIndexIsLast(prefix, name);
      assert names == prefix + [names[|names| - 1]];
    }
  }

  /** A position that holds the name with none after it is the one found. */
  lemma LastIndexFound(names: seq<string>, name: string, i: nat)
    requires i < |names| && names[i] == name && forall j | i < j < |names| :: names[j] != name
    ensures LastIndex(names, name) == Some(i)
  {
    LastIndexIsLast(names, name);
  }

  /** Whether row `i` has no value, or NULL, in the column. */
  predicate NothingIn(rows: seq<seq<Value>>, ordinal: nat, i: nat)
    requires i < |rows|
  {
    ordinal < |rows[i]| ==> rows[i][ordinal].Null?
  }

  /** The type of a column: NULL exactly when all it holds is NULL, and otherwise the first other type it holds. */
  lemma {:induction false} ColumnTypedByFirstValue(rows: seq<seq<Value>>, ordinal: nat)
    ensures ColumnType(rows, ordinal) == NullType <==> forall i | 0 <= i < |rows| :: NothingIn(rows, ordinal, i)
    ensures ColumnType(rows, ordinal) != NullType ==>
              exists i | 0 <= i < |rows| ::
                && ordinal < |rows[i]| && TypeOf(rows[i][ordinal]) == ColumnType(rows, ordinal)
                && forall j | 0 <= j < i :: NothingIn(rows, ordinal, j)
  {
    if rows == [] {
    } else if NothingIn(rows, ordinal, 0) {
      var rest := rows[1..];
      ColumnTypedByFirstValue(rest, ordinal);
      assert forall i | 0 <= i < |rest| :: NothingIn(rest, ordinal, i) <==> NothingIn(rows, ordinal, i + 1);
      assert forall i | 0 < i < |rows| :: NothingIn(rows, ordinal, i) <==> NothingIn(rest, ordinal, i - 1);
      if ColumnType(rest, ordinal) != NullType {
        var k :| 0 <= k < |rest| && ordinal < |rest[k]| && TypeOf(rest[k][ordinal]) == ColumnType(rest, ordinal)
                 && forall j | 0 <= j < k :: NothingIn(rest, ordinal, j);
        assert rows[k + 1] == rest[k];
      }
    }
  }

  /** Rows are built exactly when each has one value per name, and then keep their order and values, under the one column list. */
  lemma RowsBuiltExactly(names: seq<string>, rows: seq<seq<Value>>)
    ensures BuildRows(names, rows).Ok? <==> forall i | 0 <= i < |rows| :: |rows[i]| == |names|
    ensures BuildRows(names, rows).Err? ==>
              exists i | 0 <= i < |rows| ::
                && BuildRows(names, rows).error == Protocol(RowWidth(|rows[i]|, |names|)) && |rows[i]| != |names|
                && forall j | 0 <= j < i :: |rows[j]| == |names|
    ensures BuildRows(names, rows).Ok? ==>
              var built := BuildRows(names, rows).value;
              && |built| == |rows|
              && forall i | 0 <= i < |rows| ::
                   && built[i].values == rows[i] && built[i].columns == Columns(names, rows)
                   && Names(built[i].columns) == names && WellFormed(built[i])
  {
    var columns := Columns(names, rows);
    var results := Map(values => BuildRow(columns, values), rows);
    assert forall i | 0 <= i < |rows| :: results[i] == BuildRow(columns, rows[i]);
    assert Names(columns) == names;
    if BuildRows(names, rows).Err? {
      var i :| 0 <= i < |rows| && results[i] == Err(BuildRows(names, rows).error) && forall j | 0 <= j < i :: results[j].Ok?;
    }
  }

  /** A name finds the value and type of its last column in every row, and nothing when no column has it. */
  lemma LookupFindsTheLast(names: seq<string>, rows: seq<seq<Value>>, i: nat, name: string)
    requires BuildRows(names, rows).Ok? && i < |rows|
    ensures |BuildRows(names, rows).value| == |rows| && WellFormed(BuildRows(names, rows).value[i]) && |rows[i]| == |names|
    ensures var found := Lookup(BuildRows(names, rows).value[i], name);
            match LastIndex(names, name)
            case None => found == Err(ColumnNotFound(name)) && name !in names
            case Some(k) => k < |names| && found == Ok((rows[i][k], ColumnType(rows, k))) && names[k] == name
  {
    RowsBuiltExactly(names, rows);
    LastIndexIsLast(names, name);
  }

  /** Dropping rows off the end can only forget a column's type. */
  lemma {:induction false} TypeOfFewerRows(rows: seq<seq<Value>>, k: nat, ordinal: nat)
    requires k <= |rows|
    ensures ColumnType(rows[..k], ordinal) in {NullType, ColumnType(rows, ordinal)}
    decreases k
  {
    if k == 0 {
    } else {
      assert rows[..k][1..] == rows[1..][..k - 1];
      TypeOfFewerRows(rows[1..], k - 1, ordinal);
    }
  }

  /** Fewer rows give the same names, the first rows' values, and no column type the whole result does not give. */
  lemma FewerRowsRefine(names: seq<string>, rows: seq<seq<Value>>, k: nat)
    requires BuildRows(names, rows).Ok? && k <= |rows|
    ensures BuildRows(names, rows[..k]).Ok?
    ensures RefinesRows(BuildRows(names, rows[..k]).value, BuildRows(names, rows).value, k)
  {
    RowsBuiltExactly(names, rows);
    RowsBuiltExactly(names, rows[..k]);
    forall c | 0 <= c < |names|
      ensures ColumnType(rows[..k], c) in {NullType, ColumnType(rows, c)}
    {
      TypeOfFewerRows(rows, k, c);
    }
  }

  /** The first `k` of the rows, possibly with less known of a column's type. */
  predicate RefinesRows(few: seq<Row>, all: seq<Row>, k: nat) {
    && k <= |all| && |few| == k
    && forall i | 0 <= i < k ::
         && few[i].values == all[i].values && |few[i].columns| == |all[i].columns|
         && forall c | 0 <= c < |few[i].columns| ::
              && few[i].columns[c].name == all[i].columns[c].name && few[i].columns[c].ordinal == all[i].columns[c].ordinal
              && few[i].columns[c].typeInfo in {NullType, all[i].columns[c].typeInfo}
  }
}
