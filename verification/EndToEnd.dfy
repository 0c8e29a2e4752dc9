/** A value from the caller's bind to the caller's read, through every part of the Durable Object driver. */
module EndToEnd {
  import opened Wrappers
  import opened Doubles
  import opened Unicode
  import opened Values
  import opened Errors
  import opened JsBoundary
  import opened Types
  import opened Arguments
  import opened Rows
  import opened Reading
  import opened Storage
  import opened DoDriver
  import opened DoLaws

  datatype TypedValue = TypedValue(ty: RustType, value: RustValue)

  predicate Bindable(bound: TypedValue) {
    HasType(bound.ty, bound.value) && EncodeValue(bound.ty, bound.value).Ok?
  }

  /** A typed value a caller can bind: one of its type that encodes. */
  type Bound = b: TypedValue | Bindable(b) witness TypedValue(BoolType, BoolValue(true))

  function Encoders(bounds: seq<Bound>): seq<Encoder> {
    seq(|bounds|, i requires 0 <= i < |bounds| => TypedEncoder(bounds[i].ty, bounds[i].value))
  }

  /** The argument a bind leaves. */
  function Argument(bound: Bound): Value {
    EncodesExactly(bound.ty, bound.value);
    if bound.value.NoValue? then Null else EncodeValue(bound.ty, bound.value).value.0[0]
  }

  function ArgumentsOf(bounds: seq<Bound>): seq<Value> {
    seq(|bounds|, i requires 0 <= i < |bounds| => Argument(bounds[i]))
  }

  lemma OneBind(values: seq<Value>, bound: Bound)
    ensures Bind(values, TypedEncoder(bound.ty, bound.value)).0 == values + [Argument(bound)]
  {
    TypedBindsStayAligned(values, bound.ty, bound.value);
    EncodesExactly(bound.ty, bound.value);
  }

  lemma ArgumentsJoin(bounds: seq<Bound>)
    requires bounds != []
    ensures ArgumentsOf(bounds) == [Argument(bounds[0])] + ArgumentsOf(bounds[1..])
    ensures Encoders(bounds)[1..] == Encoders(bounds[1..])
  {
  }

  /** Binding the values one after another leaves one argument each, in order. */
  lemma {:induction false} BindsInOrder(values: seq<Value>, bounds: seq<Bound>)
    ensures BindAll(values, Encoders(bounds)) == values + ArgumentsOf(bounds)
    decreases |bounds|
  {
    if bounds == [] {
      assert values + [] == values;
    } else {
      var first, rest := Argument(bounds[0]), ArgumentsOf(bounds[1..]);
      OneBind(values, bounds[0]);
      ArgumentsJoin(bounds);
      BindsInOrder(values + [first], bounds[1..]);
      assert (values + [first]) + rest == values + ([first] + rest);
    }
  }

  lemma ArgumentReadsBack(bound: Bound)
    ensures ToJs(Argument(bound)).Ok? && FromJs(ToJs(Argument(bound)).value).Ok?
    ensures Recovered(bound, FromJs(ToJs(Argument(bound)).value).value)
  {
    EncodesExactly(bound.ty, bound.value);
    TypedRoundTrip(bound.ty, bound.value);
  }

  /** A read value passes the type's check and decodes to what was bound. */
  predicate Recovered(bound: Bound, read: Value) {
    && (read.Null? || Compatible(bound.ty, TypeOf(read)))
    && DecodeValue(bound.ty, read).Ok?
    && SameValue(DecodeValue(bound.ty, read).value, bound.value)
  }

  /**
   A statement that returns its parameters as one row, as `SELECT ?1 AS a, ?2 AS b` does, gives every value
   back: bound in order, sent, drained, built into a row, found by name and decoded, each parameter under a
   name no later column shares is the value that was bound. Its column is typed by it.
   */
  lemma ParametersComeBack(backend: Backend, db: Db, sql: string, names: seq<string>, bounds: seq<Bound>, script: Script)
    requires |names| == |bounds|
    requires Ran(backend, db, sql, BindAll([], Encoders(bounds))) == Some(script)
    requires script.names == Map((name: string) => JsString(ToUtf16(name)), names) && script.end.Finishes?
    requires ToJsArray(ArgumentsOf(bounds)).Ok? ==>
               |script.steps| == 1 && script.steps[0].value == JsArray(ToJsArray(ArgumentsOf(bounds)).value)
    ensures var fetched := Fetch(backend, db, sql, BindAll([], Encoders(bounds)), None);
            && fetched.result.Ok? && |fetched.result.value.rows| == 1
            && RowGivesBack(fetched.result.value.rows[0], names, bounds)
  {
    var values := ReadArguments(bounds);
    BindsInOrder([], bounds);
    assert [] + ArgumentsOf(bounds) == ArgumentsOf(bounds);
    ArgumentsCross(bounds);
    NamesRead(names);
    OneRowFetched(backend, db, sql, ArgumentsOf(bounds), names, values, script);
    RowRecovers(names, bounds);
  }

  /** Each parameter under a name no later column shares is found in the row, typed by itself, and recovered. */
  predicate RowGivesBack(row: Row, names: seq<string>, bounds: seq<Bound>) {
    && |names| == |bounds| && WellFormed(row)
    && forall i | 0 <= i < |names| && LastIndex(names, names[i]) == Some(i) ::
         var found := Lookup(row, names[i]);
         found.Ok? && Recovered(bounds[i], found.value.0) && found.value.1 == TypeOf(found.value.0)
  }

  lemma RowRecovers(names: seq<string>, bounds: seq<Bound>)
    requires |names| == |bounds|
    ensures var built := BuildRows(names, [ReadArguments(bounds)]);
            built.Ok? && |built.value| == 1 && RowGivesBack(built.value[0], names, bounds)
  {
    var values := ReadArguments(bounds);
    RowsBuiltExactly(names, [values]);
    forall i | 0 <= i < |names| && LastIndex(names, names[i]) == Some(i)
      ensures var row := BuildRows(names, [values]).value[0];
              && Lookup(row, names[i]) == Ok((values[i], TypeOf(values[i]))) && Recovered(bounds[i], values[i])
    {
      ArgumentReadsBack(bounds[i]);
      LookupFindsTheLast(names, [values], 0, names[i]);
      assert ColumnType([values][1..], i) == NullType;
    }
  }

  /** A statement of one row, fetched. */
  lemma OneRowFetched(backend: Backend, db: Db, sql: string, arguments: seq<Value>, names: seq<string>, values: seq<Value>, script: Script)
    requires ReadNames(script.names) == Ok(names) && script.end.Finishes?
    requires |script.steps| == 1 && ReadRow(script.steps[0].value) == Ok(values) && |values| == |names|
    ensures BuildRows(names, [values]).Ok?
    ensures Ran(backend, db, sql, arguments) == Some(script) ==>
              var fetched := Fetch(backend, db, sql, arguments, None);
              fetched.result.Ok? && fetched.result.value.rows == BuildRows(names, [values]).value
  {
    SingleStep(script.steps, values);
    RowsBuiltExactly(names, [values]);
    FetchIsPlain(backend, db, sql, arguments);
  }

  /** What each argument reads back as. */
  function ReadArguments(bounds: seq<Bound>): (values: seq<Value>)
    ensures |values| == |bounds|
  {
    seq(|bounds|, i requires 0 <= i < |bounds| => ArgumentReadsBack(bounds[i]); FromJs(ToJs(Argument(bounds[i])).value).value)
  }

  lemma ArgumentsCross(bounds: seq<Bound>)
    ensures ToJsArray(ArgumentsOf(bounds)).Ok?
    ensures ReadValues(ToJsArray(ArgumentsOf(bounds)).value) == Ok(ReadArguments(bounds))
  {
    var arguments := ArgumentsOf(bounds);
    ArgumentsInOrder(arguments);
    forall i | 0 <= i < |bounds|
      ensures ToJs(arguments[i]).Ok? && FromJs(ToJs(arguments[i]).value) == Ok(ReadArguments(bounds)[i])
    {
      ArgumentReadsBack(bounds[i]);
    }
    var sent := ToJsArray(arguments).value;
    CollectAll(Map(FromJs, sent), ReadArguments(bounds));
  }

  lemma NamesRead(names: seq<string>)
    ensures ReadNames(Map((name: string) => JsString(ToUtf16(name)), names)) == Ok(names)
  {
    var header := Map((name: string) => JsString(ToUtf16(name)), names);
    forall i | 0 <= i < |names|
      ensures Map(ReadName, header)[i] == Ok(names[i])
    {
      Utf16RoundTrip(names[i]);
    }
    CollectAll(Map(ReadName, header), names);
  }

  lemma SingleStep(steps: seq<Step>, values: seq<Value>)
    requires |steps| == 1 && ReadRow(steps[0].value) == Ok(values)
    ensures ReadSteps(steps) == Ok([values])
  {
    CollectAll(Map((step: Step) => ReadRow(step.value), steps), [values]);
  }
}
