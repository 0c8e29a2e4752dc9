/** The two readings of a D1 result agree by name: what the executor reads from arrays, a batch reads from objects. */
module D1Agreement {
  import opened Wrappers
  import opened Values
  import opened Errors
  import opened JsBoundary
  import opened Rows
  import opened Reading
  import opened D1Objects
  import opened D1Driver

  /** The keys a batch reads by: the first object's, which all objects of the result share. */
  function Keys(names: seq<string>, cells: seq<seq<JsValue>>): seq<string>
    requires cells != [] && forall i | 0 <= i < |cells| :: |cells[i]| == |names|
  {
    OwnKeys(RowObject(names, cells[0]))
  }

  /** The keys are the names, each once. */
  lemma KeysAreTheNames(names: seq<string>, cells: seq<seq<JsValue>>, key: string)
    requires cells != [] && forall i | 0 <= i < |cells| :: |cells[i]| == |names|
    ensures key in Keys(names, cells) <==> key in names
    ensures multiset(Keys(names, cells))[key] <= 1
  {
    var first := RowObject(names, cells[0]);
    ObjectKeepsTheLast(names, cells[0]);
    OwnKeysHasKey(first, key);
    OwnKeysAreTheKeys(first.order);
    DistinctCounts(first.order, key);
  }

  /** Reading an object by key is reading the last column of that name. */
  lemma ObjectCell(names: seq<string>, cells: seq<seq<JsValue>>, i: nat, p: nat)
    requires cells != [] && forall i | 0 <= i < |cells| :: |cells[i]| == |names|
    requires i < |cells| && p < |Keys(names, cells)|
    ensures var column := LastIndex(names, Keys(names, cells)[p]);
            && column.Some? && column.value < |names|
            && Get(RowObject(names, cells[i]), Keys(names, cells)[p]) == cells[i][column.value]
  {
    KeysAreTheNames(names, cells, Keys(names, cells)[p]);
    ObjectKeepsTheLast(names, cells[i]);
  }

  /** The objects can be read when every cell can, and are then rows of the read values, keyed. */
  lemma ObjectsRead(names: seq<string>, cells: seq<seq<JsValue>>, values: seq<seq<Value>>)
    requires cells != [] && forall i | 0 <= i < |cells| :: |cells[i]| == |names|
    requires ReadAs(cells, values)
    ensures ReadResults(AsObjects(names, cells)) == BuildRows(Keys(names, cells), Keyed(names, Keys(names, cells), values))
  {
    var keys := Keys(names, cells);
    var objects := AsObjects(names, cells).objects;
    var keyed := Keyed(names, keys, values);
    var results := Map((row: JsObject) => ReadObject(keys, row), objects);
    forall i | 0 <= i < |cells|
      ensures results[i] == Ok(keyed[i])
    {
      var read := Map((key: string) => FromJs(Get(objects[i], key)), keys);
      forall p | 0 <= p < |keys|
        ensures read[p] == Ok(keyed[i][p])
      {
        ObjectCell(names, cells, i, p);
      }
      CollectAll(read, keyed[i]);
    }
    CollectAll(results, keyed);
  }

  /** Rows of values by key instead of by column. */
  function Keyed(names: seq<string>, keys: seq<string>, values: seq<seq<Value>>): seq<seq<Value>> {
    seq(|values|, i requires 0 <= i < |values| => KeyedRow(names, keys, values[i]))
  }

  function KeyedRow(names: seq<string>, keys: seq<string>, row: seq<Value>): (r: seq<Value>)
    ensures |r| == |keys|
  {
    seq(|keys|, p requires 0 <= p < |keys| => Cell(row, LastIndex(names, keys[p]).GetOr(|row|)))
  }

  function Cell(row: seq<Value>, column: nat): Value {
    if column < |row| then row[column] else Null
  }

  /** A key's column has the type of the column it keeps. */
  lemma {:induction false} KeyedType(names: seq<string>, keys: seq<string>, values: seq<seq<Value>>, p: nat, column: nat)
    requires p < |keys| && LastIndex(names, keys[p]) == Some(column)
    requires forall i | 0 <= i < |values| :: column < |values[i]|
    ensures ColumnType(Keyed(names, keys, values), p) == ColumnType(values, column)
  {
    if values == [] {
    } else {
      var keyed := Keyed(names, keys, values);
      assert keyed[0] == KeyedRow(names, keys, values[0]);
      assert keyed[1..] == Keyed(names, keys, values[1..]);
      assert keyed[0][p] == values[0][column];
      KeyedType(names, keys, values[1..], p, column);
    }
  }

  /**
   The two readings agree by name. Whenever the arrays can be read so can the objects, as many rows of them;
   and in every row every name finds the same value under the same column type in both, or is found in neither.
   */
  lemma ReadingsAgreeByName(names: seq<string>, cells: seq<seq<JsValue>>)
    requires forall i | 0 <= i < |cells| :: |cells[i]| == |names|
    requires Fetch(AsArrays(names, cells), None).Ok?
    ensures ReadResults(AsObjects(names, cells)).Ok?
    ensures var arrays, objects := Fetch(AsArrays(names, cells), None).value, ReadResults(AsObjects(names, cells)).value;
            && |arrays| == |objects| == |cells|
            && forall i | 0 <= i < |cells| ::
                 && WellFormed(arrays[i]) && WellFormed(objects[i])
                 && forall name :: Lookup(objects[i], name) == Lookup(arrays[i], name)
  {
    ArraysReadExactly(names, cells);
    var values :| ReadAs(cells, values) && Fetch(AsArrays(names, cells), None) == BuildRows(names, values);
    RowsBuiltExactly(names, values);
    if cells == [] {
      assert AsObjects(names, cells).objects == [];
    } else {
      var keys := Keys(names, cells);
      var keyed := Keyed(names, keys, values);
      ObjectsRead(names, cells, values);
      RowsBuiltExactly(keys, keyed);
      forall i, name | 0 <= i < |cells|
        ensures Lookup(BuildRows(keys, keyed).value[i], name) == Lookup(BuildRows(names, values).value[i], name)
      {
        NameAgrees(names, cells, values, i, name);
      }
    }
  }

  lemma NameAgrees(names: seq<string>, cells: seq<seq<JsValue>>, values: seq<seq<Value>>, i: nat, name: string)
    requires cells != [] && forall i | 0 <= i < |cells| :: |cells[i]| == |names|
    requires ReadAs(cells, values) && i < |cells|
    requires BuildRows(names, values).Ok? && |BuildRows(names, values).value| == |cells| && WellFormed(BuildRows(names, values).value[i])
    requires var keyed := BuildRows(Keys(names, cells), Keyed(names, Keys(names, cells), values));
             keyed.Ok? && |keyed.value| == |cells| && WellFormed(keyed.value[i])
    ensures var objects := BuildRows(Keys(names, cells), Keyed(names, Keys(names, cells), values)).value;
            Lookup(objects[i], name) == Lookup(BuildRows(names, values).value[i], name)
  {
    var keys := Keys(names, cells);
    var keyed := Keyed(names, keys, values);
    LookupFindsTheLast(names, values, i, name);
    LookupFindsTheLast(keys, keyed, i, name);
    KeysAreTheNames(names, cells, name);
    LastIndexIsLast(names, name);
    LastIndexIsLast(keys, name);
    if name in names {
      var column, p := LastIndex(names, name).value, LastIndex(keys, name).value;
      assert keyed[i] == KeyedRow(names, keys, values[i]);
      assert keyed[i][p] == values[i][column];
      KeyedType(names, keys, values, p, column);
    }
  }

  /** When the names are distinct and none is an array index, the two readings are the same rows, by position too. */
  lemma ReadingsAgreeByPosition(names: seq<string>, cells: seq<seq<JsValue>>)
    requires forall i | 0 <= i < |cells| :: |cells[i]| == |names|
    requires Distinct(names) && forall name | name in names :: !IsArrayIndex(name)
    requires Fetch(AsArrays(names, cells), None).Ok?
    ensures ReadResults(AsObjects(names, cells)) == Fetch(AsArrays(names, cells), None)
  {
    ArraysReadExactly(names, cells);
    var values :| ReadAs(cells, values) && Fetch(AsArrays(names, cells), None) == BuildRows(names, values);
    if cells == [] {
      assert AsObjects(names, cells).objects == [];
      RowsBuiltExactly(names, values);
      assert BuildRows(names, values).value == [];
    } else {
      PlainKeys(names, cells);
      ObjectsRead(names, cells, values);
      KeyedByDistinctNames(names, values);
    }
  }

  lemma PlainKeys(names: seq<string>, cells: seq<seq<JsValue>>)
    requires cells != [] && forall i | 0 <= i < |cells| :: |cells[i]| == |names|
    requires Distinct(names) && forall name | name in names :: !IsArrayIndex(name)
    ensures Keys(names, cells) == names
  {
    DistinctNamesKeepTheirOrder(names, cells[0]);
    NoIndicesKeepTheirOrder(names);
    assert SortIndices([]) + names == names;
  }

  lemma KeyedByDistinctNames(names: seq<string>, values: seq<seq<Value>>)
    requires Distinct(names) && forall i | 0 <= i < |values| :: |values[i]| == |names|
    ensures Keyed(names, names, values) == values
  {
    forall i | 0 <= i < |values|
      ensures KeyedRow(names, names, values[i]) == values[i]
    {
      forall c | 0 <= c < |names|
        ensures LastIndex(names, names[c]) == Some(c)
      {
        LastIndexFound(names, names[c], c);
      }
    }
  }

  /** The objects can be read exactly when the cells that survive can: a cell shadowed by a later column of its name is never read. */
  lemma ObjectsReadExactly(names: seq<string>, cells: seq<seq<JsValue>>)
    requires forall i | 0 <= i < |cells| :: |cells[i]| == |names|
    ensures ReadResults(AsObjects(names, cells)).Ok? <==>
              forall i, c | 0 <= i < |cells| && 0 <= c < |names| && Survives(names, c) :: FromJs(cells[i][c]).Ok?
  {
    var objects := AsObjects(names, cells).objects;
    if cells != [] {
      var keys := Keys(names, cells);
      var results := Map((row: JsObject) => ReadObject(keys, row), objects);
      forall i | 0 <= i < |cells|
        ensures results[i].Ok? <==> forall c | 0 <= c < |names| && Survives(names, c) :: FromJs(cells[i][c]).Ok?
        ensures results[i].Ok? ==> |results[i].value| == |keys|
      {
        ObjectReadExactly(names, cells, i);
      }
      if Collect(results).Ok? {
        assert forall i | 0 <= i < |cells| :: results[i] == Ok(Collect(results).value[i]);
        RowsBuiltExactly(keys, Collect(results).value);
      }
    }
  }

  lemma ObjectReadExactly(names: seq<string>, cells: seq<seq<JsValue>>, i: nat)
    requires cells != [] && (forall i | 0 <= i < |cells| :: |cells[i]| == |names|) && i < |cells|
    ensures ReadObject(Keys(names, cells), RowObject(names, cells[i])).Ok? <==>
              forall c | 0 <= c < |names| && Survives(names, c) :: FromJs(cells[i][c]).Ok?
    ensures var read := ReadObject(Keys(names, cells), RowObject(names, cells[i])); read.Ok? ==> |read.value| == |Keys(names, cells)|
  {
    if c :| 0 <= c < |names| && Survives(names, c) && FromJs(cells[i][c]).Err? {
      UnreadableCell(names, cells, i, c);
    } else {
      ReadableObject(names, cells, i);
    }
  }

  lemma ReadableObject(names: seq<string>, cells: seq<seq<JsValue>>, i: nat)
    requires cells != [] && (forall i | 0 <= i < |cells| :: |cells[i]| == |names|) && i < |cells|
    requires forall c | 0 <= c < |names| && Survives(names, c) :: FromJs(cells[i][c]).Ok?
    ensures ReadObject(Keys(names, cells), RowObject(names, cells[i])).Ok?
  {
    var keys := Keys(names, cells);
    var read := Map((key: string) => FromJs(Get(RowObject(names, cells[i]), key)), keys);
    forall p | 0 <= p < |keys|
      ensures read[p].Ok?
    {
      ObjectCell(names, cells, i, p);
      KeyedColumnSurvives(names, keys[p]);
    }
  }

  lemma UnreadableCell(names: seq<string>, cells: seq<seq<JsValue>>, i: nat, c: nat)
    requires cells != [] && (forall i | 0 <= i < |cells| :: |cells[i]| == |names|) && i < |cells|
    requires c < |names| && Survives(names, c) && FromJs(cells[i][c]).Err?
    ensures ReadObject(Keys(names, cells), RowObject(names, cells[i])).Err?
  {
    var keys := Keys(names, cells);
    var read := Map((key: string) => FromJs(Get(RowObject(names, cells[i]), key)), keys);
    KeysAreTheNames(names, cells, names[c]);
    var p :| 0 <= p < |keys| && keys[p] == names[c];
    ObjectCell(names, cells, i, p);
    assert read[p].Err?;
  }

  lemma KeyedColumnSurvives(names: seq<string>, key: string)
    requires LastIndex(names, key).Some?
    ensures LastIndex(names, key).value < |names| && Survives(names, LastIndex(names, key).value)
  {
    LastIndexIsLast(names, key);
  }
}
