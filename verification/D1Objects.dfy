/**
 A row of a D1 batch: an object keyed by column name, in which columns of one name are one key and keys
 that look like array indices come first.
 */
module D1Objects {
  import opened Wrappers
  import opened Values
  import opened Errors
  import opened JsBoundary
  import opened Rows
  import opened Reading

  /** A plain JavaScript object: its keys in the order they were first set, and what each holds. */
  datatype JsObject = JsObject(order: seq<string>, cells: map<string, JsValue>)

  function SetKey(row: JsObject, key: string, cell: JsValue): JsObject {
    JsObject(if key in row.cells then row.order else row.order + [key], row.cells[key := cell])
  }

  /** `Reflect.get`: undefined for a key the object does not have. */
  function Get(row: JsObject, key: string): JsValue {
    if key in row.cells then row.cells[key] else Undefined
  }

  /** The object D1 makes of a row, setting each column's key in turn. */
  function RowObject(names: seq<string>, cells: seq<JsValue>): JsObject
    requires |names| == |cells|
  {
    if names == [] then JsObject([], map[])
    else
      var last := |names| - 1;
      SetKey(RowObject(names[..last], cells[..last]), names[last], cells[last])
  }

  // ---- The order of an object's own keys: section 10.1.11.1 of ECMA-262

  predicate IsDigit(c: char) {
    '0' <= c <= '9'
  }

  /** The number a run of decimal digits stands for. */
  function Decimal(digits: string): nat {
    if digits == "" then 0
    else Decimal(digits[..|digits| - 1]) * 10 + DigitValue(digits[|digits| - 1])
  }

  function DigitValue(c: char): nat {
    if IsDigit(c) then c as int - '0' as int else 0
  }

  predicate Canonical(numeral: string) {
    numeral != "" && (forall c | c in numeral :: IsDigit(c)) && (numeral[0] == '0' ==> |numeral| == 1)
  }

  /** An array index, section 6.1.7 of ECMA-262: the canonical decimal numeral of an integer up to 2^32 - 2. */
  predicate IsArrayIndex(key: string) {
    Canonical(key) && Decimal(key) <= 0xFFFF_FFFE
  }

  function ArrayIndices(keys: seq<string>): (r: seq<string>)
    ensures forall key | key in r :: key in keys && IsArrayIndex(key)
  {
    if keys == [] then []
    else (if IsArrayIndex(keys[0]) then [keys[0]] else []) + ArrayIndices(keys[1..])
  }

  function OtherKeys(keys: seq<string>): (r: seq<string>)
    ensures forall key | key in r :: key in keys && !IsArrayIndex(key)
  {
    if keys == [] then []
    else (if IsArrayIndex(keys[0]) then [] else [keys[0]]) + OtherKeys(keys[1..])
  }

  predicate Ascending(keys: seq<string>) {
    forall i, j | 0 <= i < j < |keys| :: Decimal(keys[i]) <= Decimal(keys[j])
  }

  function InsertIndex(key: string, keys: seq<string>): seq<string> {
    if keys == [] || Decimal(key) <= Decimal(keys[0]) then [key] + keys
    else [keys[0]] + InsertIndex(key, keys[1..])
  }

  function SortIndices(keys: seq<string>): seq<string> {
    if keys == [] then [] else InsertIndex(keys[0], SortIndices(keys[1..]))
  }

  function OwnKeys(row: JsObject): seq<string> {
    SortIndices(ArrayIndices(row.order)) + OtherKeys(row.order)
  }

  // ---- Reading the rows of a batch

  function ReadObject(keys: seq<string>, row: JsObject): Result<seq<Value>, Error> {
    Collect(Map((key: string) => FromJs(Get(row, key)), keys))
  }

  /** What `results()` gives: an exception, nothing, or the rows as objects. */
  datatype ResultsReply = ResultsThrew | NoResults | Objects(objects: seq<JsObject>)

  function ReadResults(reply: ResultsReply): Result<seq<Row>, Error> {
    match reply
    case ResultsThrew => Err(Protocol(UnexpectedResponse))
    case NoResults => Ok([])
    case Objects(objects) =>
      if objects == [] then Ok([])
      else
        var names := OwnKeys(objects[0]);
        match Collect(Map((row: JsObject) => ReadObject(names, row), objects))
        case Err(error) => Err(error)
        case Ok(values) => BuildRows(names, values)
  }

  /** Reads the rows of a batch: every object by the first one's keys. */
  method ReadBatchRows(reply: ResultsReply) returns (r: Result<seq<Row>, Error>)
    ensures r == ReadResults(reply)
  {
    match reply {
      case ResultsThrew => return Err(Protocol(UnexpectedResponse));
      case NoResults => return Ok([]);
      case Objects(_) =>
    }
    var objects := reply.objects;
    if objects == [] {
      return Ok([]);
    }
    var names := OwnKeys(objects[0]);
    var rows: seq<seq<Value>> := [];
    ghost var results := Map((row: JsObject) => ReadObject(names, row), objects);
    for i := 0 to |objects|
      invariant |rows| == i && forall k | 0 <= k < i :: results[k] == Ok(rows[k])
    {
      var values := ReadByKeys(names, objects[i]);
      if values.Err? {
        CollectFirstError(results, i);
        return Err(values.error);
      }
      rows := rows + [values.value];
    }
    CollectAll(results, rows);
    return BuildRows(names, rows);
  }

  /** Reads one object, key by key. */
  method ReadByKeys(names: seq<string>, row: JsObject) returns (r: Result<seq<Value>, Error>)
    ensures r == ReadObject(names, row)
  {
    var values: seq<Value> := [];
    ghost var cells := Map((key: string) => FromJs(Get(row, key)), names);
    for j := 0 to |names|
      invariant |values| == j && forall k | 0 <= k < j :: cells[k] == Ok(values[k])
    {
      var value := FromJs(Get(row, names[j]));
      if value.Err? {
        CollectFirstError(cells, j);
        return Err(value.error);
      }
      values := values + [value.value];
    }
    CollectAll(cells, values);
    return Ok(values);
  }

  // ---- What an object keeps of a row

  predicate Distinct(keys: seq<string>) {
    forall i, j | 0 <= i < j < |keys| :: keys[i] != keys[j]
  }

  /** An object has each of the row's names as a key once, holding the value of the last column of that name. */
  lemma {:induction false} ObjectKeepsTheLast(names: seq<string>, cells: seq<JsValue>)
    requires |names| == |cells|
    ensures var row := RowObject(names, cells);
            && Distinct(row.order)
            && (forall key :: key in row.order <==> key in names)
            && (forall key :: key in row.cells <==> key in names)
    ensures forall key | key in names ::
              && LastIndex(names, key).Some? && LastIndex(names, key).value < |names|
              && Get(RowObject(names, cells), key) == cells[LastIndex(names, key).value]
  {
    if names == [] {
    } else {
      var last := |names| - 1;
      ObjectKeepsTheLast(names[..last], cells[..last]);
      assert names == names[..last] + [names[last]];
      forall key | key in names
        ensures LastIndex(names, key).Some? && LastIndex(names, key).value < |names|
      {
        LastIndexIsLast(names, key);
      }
    }
  }

  /** The order of an object's keys depends on the names alone. */
  lemma {:induction false} OrderIgnoresCells(names: seq<string>, a: seq<JsValue>, b: seq<JsValue>)
    requires |names| == |a| == |b|
    ensures RowObject(names, a).order == RowObject(names, b).order
  {
    if names == [] {
    } else {
      var last := |names| - 1;
      OrderIgnoresCells(names[..last], a[..last], b[..last]);
      ObjectKeepsTheLast(names[..last], a[..last]);
      ObjectKeepsTheLast(names[..last], b[..last]);
    }
  }

  lemma {:induction false} DistinctNamesKeepTheirOrder(names: seq<string>, cells: seq<JsValue>)
    requires |names| == |cells| && Distinct(names)
    ensures RowObject(names, cells).order == names
  {
    if names == [] {
    } else {
      var last := |names| - 1;
      DistinctNamesKeepTheirOrder(names[..last], cells[..last]);
      ObjectKeepsTheLast(names[..last], cells[..last]);
      assert names == names[..last] + [names[last]];
    }
  }

  lemma {:induction false} InsertPermutes(key: string, keys: seq<string>)
    ensures multiset(InsertIndex(key, keys)) == multiset{key} + multiset(keys)
  {
    if keys == [] || Decimal(key) <= Decimal(keys[0]) {
    } else {
      InsertPermutes(key, keys[1..]);
      assert keys == [keys[0]] + keys[1..];
    }
  }

  lemma {:induction false} SortPermutes(keys: seq<string>)
    ensures multiset(SortIndices(keys)) == multiset(keys)
  {
    if keys == [] {
    } else {
      SortPermutes(keys[1..]);
      InsertPermutes(keys[0], SortIndices(keys[1..]));
      assert keys == [keys[0]] + keys[1..];
    }
  }

  lemma {:induction false} InsertAscends(key: string, keys: seq<string>)
    requires Ascending(keys)
    ensures Ascending(InsertIndex(key, keys))
  {
    if keys == [] || Decimal(key) <= Decimal(keys[0]) {
    } else {
      var rest := keys[1..];
      InsertAscends(key, rest);
      InsertPermutes(key, rest);
      AscendsFrom(keys[0], key, rest, InsertIndex(key, rest));
    }
  }

  lemma AscendsFrom(least: string, key: string, rest: seq<string>, inserted: seq<string>)
    requires Ascending(inserted) && multiset(inserted) == multiset{key} + multiset(rest)
    requires Decimal(least) <= Decimal(key) && forall k | k in rest :: Decimal(least) <= Decimal(k)
    ensures Ascending([least] + inserted)
  {
    forall i | 0 <= i < |inserted|
      ensures Decimal(least) <= Decimal(inserted[i])
    {
      assert inserted[i] in multiset(inserted);
      assert inserted[i] == key || inserted[i] in rest;
    }
  }

  lemma {:induction false} SortAscends(keys: seq<string>)
    ensures Ascending(SortIndices(keys))
  {
    if keys == [] {
    } else {
      SortAscends(keys[1..]);
      InsertAscends(keys[0], SortIndices(keys[1..]));
    }
  }

  /** Two canonical numerals of one number are one numeral. */
  lemma {:induction false} NumeralsAreUnique(a: string, b: string)
    requires Canonical(a) && Canonical(b) && Decimal(a) == Decimal(b)
    ensures a == b
    decreases |a|
  {
    var x, y := a[..|a| - 1], b[..|b| - 1];
    DroppedDigit(a);
    DroppedDigit(b);
    LastDigit(Decimal(x), DigitValue(a[|a| - 1]), Decimal(y), DigitValue(b[|b| - 1]));
    SameDigit(a[|a| - 1], b[|b| - 1]);
    if x == "" {
      if y != "" {
        LongNumeralIsPositive(y);
      }
    } else if y == "" {
      LongNumeralIsPositive(x);
    } else {
      NumeralsAreUnique(x, y);
    }
  }

  lemma DroppedDigit(a: string)
    requires Canonical(a)
    ensures var x := a[..|a| - 1]; a == x + [a[|a| - 1]] && IsDigit(a[|a| - 1]) && (x != "" ==> Canonical(x) && x[0] != '0')
  {
    var x := a[..|a| - 1];
    assert a[|a| - 1] in a;
    assert forall c | c in x :: c in a;
  }

  lemma SameDigit(c: char, d: char)
    requires IsDigit(c) && IsDigit(d) && DigitValue(c) == DigitValue(d)
    ensures c == d
  {
  }

  lemma LastDigit(x: nat, d: nat, y: nat, e: nat)
    requires d < 10 && e < 10 && x * 10 + d == y * 10 + e
    ensures x == y && d == e
  {
  }

  lemma {:induction false} LongNumeralIsPositive(x: string)
    requires x != "" && IsDigit(x[0]) && x[0] != '0'
    ensures Decimal(x) > 0
    decreases |x|
  {
    if |x| > 1 {
      LongNumeralIsPositive(x[..|x| - 1]);
    } else {
      assert x[..0] == "";
    }
  }

  /** The numeral of a number. */
  function Numeral(n: nat): string {
    var digit := ('0' as int + n % 10) as char;
    if n < 10 then [digit] else Numeral(n / 10) + [digit]
  }

  lemma {:induction false} NumeralIsCanonical(n: nat)
    ensures Canonical(Numeral(n)) && Decimal(Numeral(n)) == n
    ensures n > 0 ==> Numeral(n)[0] != '0'
  {
    var numeral, last := Numeral(n), ('0' as int + n % 10) as char;
    assert DigitValue(last) == n % 10;
    if n < 10 {
      assert numeral[..0] == "";
    } else {
      NumeralIsCanonical(n / 10);
      assert numeral[..|numeral| - 1] == Numeral(n / 10);
      assert forall c | c in numeral :: c in Numeral(n / 10) || c == last;
    }
  }

  /** Array indices are the numerals of the integers below 2^32 - 1, and nothing else. */
  lemma ArrayIndicesExactly(key: string)
    ensures IsArrayIndex(key) <==> exists n: nat :: n < 0xFFFF_FFFF && key == Numeral(n)
  {
    if IsArrayIndex(key) {
      NumeralIsCanonical(Decimal(key));
      NumeralsAreUnique(key, Numeral(Decimal(key)));
    }
    if n: nat :| n < 0xFFFF_FFFF && key == Numeral(n) {
      NumeralIsCanonical(n);
    }
  }

  /** Keys are in the order their names were first met: when a key comes before another, so does its name. */
  lemma {:induction false} KeysInOrderOfFirstUse(names: seq<string>, cells: seq<JsValue>, i: nat, j: nat)
    requires |names| == |cells| && i < j < |RowObject(names, cells).order|
    ensures var order := RowObject(names, cells).order;
            exists p | 0 <= p < |names| :: names[p] == order[i] && forall q | 0 <= q <= p :: names[q] != order[j]
  {
    var last := |names| - 1;
    var before, order := RowObject(names[..last], cells[..last]).order, RowObject(names, cells).order;
    ObjectKeepsTheLast(names[..last], cells[..last]);
    assert before <= order;
    assert before[i] == order[i];
    if j < |before| {
      assert before[j] == order[j];
      KeysInOrderOfFirstUse(names[..last], cells[..last], i, j);
      var p :| 0 <= p < last && names[..last][p] == before[i] && forall q | 0 <= q <= p :: names[..last][q] != before[j];
      assert names[p] == order[i] && forall q | 0 <= q <= p :: names[q] == names[..last][q];
    } else {
      assert order[j] == names[last] && names[last] !in names[..last];
      assert before[i] in names[..last];
      var p :| 0 <= p < last && names[..last][p] == before[i];
      assert names[p] == order[i] && forall q | 0 <= q <= p :: names[q] == names[..last][q];
    }
  }

  /** Whether one key comes before another. */
  ghost predicate Precedes(keys: seq<string>, first: string, second: string) {
    exists a, b | 0 <= a < b < |keys| :: keys[a] == first && keys[b] == second
  }

  /** The keys that are no index keep the order the object has them in. */
  lemma OtherKeysKeepTheirOrder(row: JsObject, i: nat, j: nat)
    requires i < j < |OwnKeys(row)| && !IsArrayIndex(OwnKeys(row)[i])
    ensures !IsArrayIndex(OwnKeys(row)[j])
    ensures Precedes(row.order, OwnKeys(row)[i], OwnKeys(row)[j])
  {
    var sorted, others := SortIndices(ArrayIndices(row.order)), OtherKeys(row.order);
    SortedAreIndices(row.order);
    assert forall p | 0 <= p < |sorted| :: OwnKeys(row)[p] == sorted[p] && sorted[p] in sorted;
    OthersInOrder(row.order, i - |sorted|, j - |sorted|);
  }

  lemma SortedAreIndices(keys: seq<string>)
    ensures forall key | key in SortIndices(ArrayIndices(keys)) :: IsArrayIndex(key)
  {
    SortPermutes(ArrayIndices(keys));
    assert forall key | key in SortIndices(ArrayIndices(keys)) :: key in multiset(ArrayIndices(keys));
  }

  lemma {:induction false} OthersInOrder(keys: seq<string>, i: nat, j: nat)
    requires i < j < |OtherKeys(keys)|
    ensures Precedes(keys, OtherKeys(keys)[i], OtherKeys(keys)[j])
  {
    var rest, others := keys[1..], OtherKeys(keys[1..]);
    if IsArrayIndex(keys[0]) {
      OthersInOrder(rest, i, j);
      LaterPrecedes(keys, others[i], others[j]);
    } else {
      assert OtherKeys(keys) == [keys[0]] + others;
      if i == 0 {
        FirstPrecedes(keys, others[j - 1]);
      } else {
        OthersInOrder(rest, i - 1, j - 1);
        LaterPrecedes(keys, others[i - 1], others[j - 1]);
      }
    }
  }

  lemma FirstPrecedes(keys: seq<string>, second: string)
    requires keys != [] && second in keys[1..]
    ensures Precedes(keys, keys[0], second)
  {
    var b :| 0 <= b < |keys[1..]| && keys[1..][b] == second;
    assert keys[b + 1] == second;
  }

  lemma LaterPrecedes(keys: seq<string>, first: string, second: string)
    requires keys != [] && Precedes(keys[1..], first, second)
    ensures Precedes(keys, first, second)
  {
    var a, b :| 0 <= a < b < |keys[1..]| && keys[1..][a] == first && keys[1..][b] == second;
    assert keys[a + 1] == first && keys[b + 1] == second;
  }

  /** The array indices among an object's keys come first, in strictly ascending order. */
  lemma IndicesComeFirst(row: JsObject, i: nat, j: nat)
    requires Distinct(row.order) && i < j < |OwnKeys(row)| && IsArrayIndex(OwnKeys(row)[j])
    ensures IsArrayIndex(OwnKeys(row)[i]) && Decimal(OwnKeys(row)[i]) < Decimal(OwnKeys(row)[j])
  {
    var indices, others := ArrayIndices(row.order), OtherKeys(row.order);
    var sorted, keys := SortIndices(indices), OwnKeys(row);
    SortAscends(indices);
    SortPermutes(indices);
    assert forall p | |sorted| <= p < |keys| :: keys[p] == others[p - |sorted|] && keys[p] in others;
    assert keys[i] == sorted[i] && sorted[i] in multiset(sorted) && sorted[i] in indices;
    if Decimal(keys[i]) == Decimal(keys[j]) {
      NumeralsAreUnique(keys[i], keys[j]);
      OwnKeysAreTheKeys(row.order);
      DistinctCounts(row.order, keys[i]);
      TwiceCounted(keys, i, j);
    }
  }

  lemma TwiceCounted(keys: seq<string>, i: nat, j: nat)
    requires i < j < |keys| && keys[i] == keys[j]
    ensures multiset(keys)[keys[i]] >= 2
  {
    assert keys == keys[..j] + [keys[j]] + keys[j + 1..];
    assert keys[..j][i] == keys[i] && keys[i] in keys[..j];
    assert multiset(keys) == multiset(keys[..j]) + multiset{keys[j]} + multiset(keys[j + 1..]);
  }

  lemma {:induction false} DistinctCounts(keys: seq<string>, key: string)
    requires Distinct(keys)
    ensures multiset(keys)[key] <= 1
  {
    if keys == [] {
    } else {
      var rest := keys[1..];
      assert keys == [keys[0]] + rest;
      DistinctCounts(rest, key);
      if keys[0] == key {
        assert forall i | 0 <= i < |rest| :: rest[i] == keys[i + 1] && keys[0] != keys[i + 1];
        assert key !in rest;
      }
    }
  }

  /** An object's own keys are its keys, each as often as it was. */
  lemma OwnKeysAreTheKeys(keys: seq<string>)
    ensures multiset(SortIndices(ArrayIndices(keys)) + OtherKeys(keys)) == multiset(keys)
  {
    SortPermutes(ArrayIndices(keys));
    KeysPartition(keys);
  }

  lemma {:induction false} KeysPartition(keys: seq<string>)
    ensures multiset(ArrayIndices(keys)) + multiset(OtherKeys(keys)) == multiset(keys)
  {
    if keys == [] {
    } else {
      KeysPartition(keys[1..]);
      assert keys == [keys[0]] + keys[1..];
    }
  }

  lemma OwnKeysHasKey(row: JsObject, key: string)
    ensures key in OwnKeys(row) <==> key in row.order
  {
    OwnKeysAreTheKeys(row.order);
    assert key in OwnKeys(row) <==> key in multiset(OwnKeys(row));
    assert key in row.order <==> key in multiset(row.order);
  }

  lemma {:induction false} NoIndicesKeepTheirOrder(keys: seq<string>)
    requires forall key | key in keys :: !IsArrayIndex(key)
    ensures ArrayIndices(keys) == [] && OtherKeys(keys) == keys
  {
    if keys == [] {
    } else {
      NoIndicesKeepTheirOrder(keys[1..]);
      assert keys == [keys[0]] + keys[1..];
    }
  }
}
