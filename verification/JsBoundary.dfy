/** JavaScript values, and the values of the drivers as them and from them. */
module JsBoundary {
  import opened Wrappers
  import opened Powers
  import opened Doubles
  import opened Unicode
  import opened Values
  import opened Errors

  /** The rows of every table of a database. */
  type Tables = map<string, seq<seq<JsValue>>>

  /** What crosses the boundary; `OtherJs` is any object, symbol, BigInt or function neither backend returns. */
  datatype JsValue =
    | Undefined
    | JsNull
    | Number(number: Float64)
    | JsString(units: seq<Unit>)
    | Boolean(truth: bool)
    | ArrayBuffer(bytes: seq<Byte>)
    | Uint8Array(bytes: seq<Byte>)
    | JsArray(items: seq<JsValue>)
    | OtherJs

  /** What a value is sent as; an integer beyond the bound cannot be sent. */
  function ToJs(value: Value): Result<JsValue, Error> {
    match value
    case Null => Ok(JsNull)
    case Integer(i) =>
      (match SafeInteger(i)
       case Ok(safe) => Ok(Number(FromInt(safe)))
       case Err(error) => Err(Encode(error)))
    case Real(d) => Ok(Number(d))
    case Text(s) => Ok(JsString(ToUtf16(s)))
    case Blob(bytes) => Ok(ArrayBuffer(bytes))
  }

  /** The arguments of a statement, in placeholder order. */
  function ToJsArray(values: seq<Value>): Result<seq<JsValue>, Error> {
    Collect(Map(ToJs, values))
  }

  /** The value read from one cell of a result. */
  function FromJs(value: JsValue): Result<Value, Error> {
    match value
    case Undefined => Ok(Null)
    case JsNull => Ok(Null)
    case Number(d) => Ok(FromNumber(d))
    case JsString(units) => Ok(Text(FromUtf16(units)))
    case Boolean(truth) => Ok(Integer(if truth then 1 else 0))
    case ArrayBuffer(bytes) => Ok(Blob(bytes))
    case Uint8Array(bytes) => Ok(Blob(bytes))
    case JsArray(items) =>
      (match BytesFromNumbers(items)
       case Ok(bytes) => Ok(Blob(bytes))
       case Err(error) => Err(error))
    case OtherJs => Err(Decode(UnexpectedJsType))
  }

  predicate IsByte(item: JsValue) {
    item.Number? && Whole(item.number) && 0 <= WholeValue(item.number) <= 255
  }

  function ByteOf(item: JsValue): Result<Byte, Error> {
    if IsByte(item)
    then Ok(WholeValue(item.number))
    else Err(Decode(NotAByte))
  }

  /** The BLOB an array stands for, if all it lists are bytes. */
  function BytesFromNumbers(items: seq<JsValue>): Result<seq<Byte>, Error> {
    Collect(Map(ByteOf, items))
  }

  /** A string, or nothing for any other JavaScript value. */
  function AsString(value: JsValue): Option<string> {
    if value.JsString? then Some(FromUtf16(value.units)) else None
  }

  // ---- What can be read

  /** Whether a value is of a kind a result may hold: anything but an unexpected object, and an array only if it lists bytes. */
  predicate Convertible(value: JsValue) {
    match value
    case OtherJs => false
    case JsArray(items) => forall i | 0 <= i < |items| :: IsByte(items[i])
    case _ => true
  }

  lemma ConvertibleExactly(value: JsValue)
    ensures FromJs(value).Ok? <==> Convertible(value)
  {
    if value.JsArray? {
      assert forall i | 0 <= i < |value.items| :: Map(ByteOf, value.items)[i] == ByteOf(value.items[i]);
    }
  }

  /** Whether this is what a value is sent as: NULL as null, a number as the double it is, text as its units, bytes as a buffer of them. */
  predicate IsSentAs(value: Value, sent: JsValue) {
    match sent
    case JsNull => value.Null?
    case Number(d) => value == Real(d) || (value.Integer? && Safe(value.integer) && Whole(d) && WholeValue(d) == value.integer && d != Zero(true))
    case JsString(units) => value.Text? && Paired(units) && FromUtf16(units) == value.text
    case ArrayBuffer(bytes) => value == Blob(bytes)
    case _ => false
  }

  lemma SentExactly(value: Value, sent: JsValue)
    ensures ToJs(value) == Ok(sent) <==> IsSentAs(value, sent)
  {
    match value
    case Integer(i) =>
      SafeIntegerIsExactness(i);
      if sent.Number? && IsSentAs(value, sent) {
        SafeIsDigits(i);
        WholeRoundTrip(sent.number);
      }
    case Text(s) =>
      Utf16RoundTrip(s);
      ReadWithoutLossExactly(ToUtf16(s));
      if sent.JsString? && Paired(sent.units) {
        ReadWithoutLossExactly(sent.units);
      }
    case _ =>
  }

  predicate IsUnsafe(value: Value) {
    value.Integer? && !Safe(value.integer)
  }

  /** Why arguments cannot be sent: for the first integer beyond the bound. */
  ghost predicate ArgumentsFail(values: seq<Value>, error: Error) {
    exists i | 0 <= i < |values| ::
      && IsUnsafe(values[i]) && error == Encode(UnsafeInteger(values[i].integer))
      && forall j | 0 <= j < i :: !IsUnsafe(values[j])
  }

  /** Arguments are sent in order, each as what it is sent as, unless one is an integer beyond the bound. */
  lemma {:induction false} ArgumentsExactly(values: seq<Value>)
    ensures ToJsArray(values).Ok? <==> forall i | 0 <= i < |values| :: !IsUnsafe(values[i])
    ensures ToJsArray(values).Ok? ==>
              && |ToJsArray(values).value| == |values|
              && forall i | 0 <= i < |values| :: IsSentAs(values[i], ToJsArray(values).value[i])
    ensures forall error :: ToJsArray(values) == Err(error) <==> ArgumentsFail(values, error)
  {
    var results := Map(ToJs, values);
    forall i | 0 <= i < |values|
      ensures results[i] == ToJs(values[i]) && (results[i].Err? <==> IsUnsafe(values[i]))
      ensures results[i].Err? ==> results[i].error == Encode(UnsafeInteger(values[i].integer))
      ensures forall sent :: results[i] == Ok(sent) ==> IsSentAs(values[i], sent)
    {
      if results[i].Ok? {
        SentExactly(values[i], results[i].value);
      }
    }
    forall error | ArgumentsFail(values, error)
      ensures Collect(results) == Err(error)
    {
      var i :| 0 <= i < |values| && IsUnsafe(values[i]) && error == Encode(UnsafeInteger(values[i].integer))
               && forall j | 0 <= j < i :: !IsUnsafe(values[j]);
      CollectFirstError(results, i);
    }
  }

  /** Whether this is what a JavaScript value is read as, by what is read: both nulls; a boolean as 0 or 1; the three forms of bytes alike. */
  predicate IsReadAs(value: JsValue, read: Value) {
    match read
    case Null => value.Undefined? || value.JsNull?
    case Integer(i) =>
      || (value == Boolean(true) && i == 1)
      || (value == Boolean(false) && i == 0)
      || (value.Number? && Whole(value.number) && WholeValue(value.number) == i && Safe(i))
    case Real(d) => value == Number(d) && !(Whole(d) && Safe(WholeValue(d)))
    case Text(s) => value.JsString? && FromUtf16(value.units) == s
    case Blob(bytes) => value == ArrayBuffer(bytes) || value == Uint8Array(bytes) || (value.JsArray? && ListsBytes(value.items, bytes))
  }

  predicate ListsBytes(items: seq<JsValue>, bytes: seq<Byte>) {
    |items| == |bytes| && forall i | 0 <= i < |items| :: IsByte(items[i]) && WholeValue(items[i].number) == bytes[i]
  }

  /** Why a JavaScript value cannot be read. */
  predicate IsUnreadableFor(value: JsValue, error: Error) {
    match value
    case OtherJs => error == Decode(UnexpectedJsType)
    case JsArray(_) => !Convertible(value) && error == Decode(NotAByte)
    case _ => false
  }

  lemma {:induction false} ReadExactly(value: JsValue)
    ensures forall read :: FromJs(value) == Ok(read) <==> IsReadAs(value, read)
    ensures forall error :: FromJs(value) == Err(error) <==> IsUnreadableFor(value, error)
  {
    if value.JsArray? {
      BytesReadExactly(value.items);
    }
  }

  lemma {:induction false} BytesReadExactly(items: seq<JsValue>)
    ensures forall bytes :: BytesFromNumbers(items) == Ok(bytes) <==> ListsBytes(items, bytes)
    ensures BytesFromNumbers(items).Err? ==> BytesFromNumbers(items).error == Decode(NotAByte) && !Convertible(JsArray(items))
  {
    var results := Map(ByteOf, items);
    assert forall i | 0 <= i < |items| :: results[i] == ByteOf(items[i]);
    forall bytes | ListsBytes(items, bytes)
      ensures Collect(results) == Ok(bytes)
    {
      CollectAll(results, bytes);
    }
  }

  // ---- Normal form

  /** A value as a result holds it: integers are safe, and a real is not a safe whole number. */
  predicate NormalForm(value: Value) {
    match value
    case Integer(i) => Safe(i)
    case Real(d) => !(Whole(d) && Safe(WholeValue(d)))
    case _ => true
  }

  /** What a bound value reads back as. */
  function Settled(value: Value): Value {
    if value.Real? then FromNumber(value.number) else value
  }

  /** Only an integer beyond the bound cannot be bound. */
  lemma BindableExactly(value: Value)
    ensures ToJs(value).Err? <==> value.Integer? && !Safe(value.integer)
    ensures ToJs(value).Err? ==> ToJs(value).error == Encode(UnsafeInteger(value.integer))
  {
  }

  /** A bindable value reads back settled; the same value exactly when it was in normal form, and settling twice is settling once. */
  lemma BoundaryRoundTrip(value: Value)
    requires ToJs(value).Ok?
    ensures FromJs(ToJs(value).value) == Ok(Settled(value))
    ensures FromJs(ToJs(value).value) == Ok(value) <==> NormalForm(value)
    ensures ToJs(Settled(value)).Ok? && FromJs(ToJs(Settled(value)).value) == Ok(Settled(value))
  {
    match value
    case Integer(i) => SafeIntegerIsExactness(i);
    case Text(s) => Utf16RoundTrip(s);
    case Real(d) =>
      if FromNumber(d).Integer? {
        SafeIntegerIsExactness(FromNumber(d).integer);
      }
    case _ =>
  }

  /** Whatever is read is in normal form, so it can be bound again and comes back unchanged. */
  lemma ReadValuesRebind(read: JsValue)
    requires FromJs(read).Ok?
    ensures NormalForm(FromJs(read).value)
    ensures var value := FromJs(read).value; ToJs(value).Ok? && FromJs(ToJs(value).value) == Ok(value)
  {
    BoundaryRoundTrip(FromJs(read).value);
  }

  /** An array of numbers is read as a BLOB exactly when it lists bytes, and then as those bytes. */
  lemma ByteArraysRead(items: seq<JsValue>, bytes: seq<Byte>)
    ensures FromJs(JsArray(Map(b => Number(FromInt(b)), bytes))) == Ok(Blob(bytes))
    ensures FromJs(JsArray(items)).Err? <==> exists i | 0 <= i < |items| :: !IsByte(items[i])
  {
    ConvertibleExactly(JsArray(items));
    var numbers := Map(b => Number(FromInt(b)), bytes);
    forall i | 0 <= i < |bytes|
      ensures ByteOf(numbers[i]) == Ok(bytes[i])
    {
      SafeIntegerIsExactness(bytes[i]);
    }
    assert BytesFromNumbers(numbers).value == bytes;
  }

  /** The JavaScript arguments exist unless some value cannot be bound, and are then one per value, in order. */
  lemma ArgumentsInOrder(values: seq<Value>)
    ensures ToJsArray(values).Ok? <==> forall i | 0 <= i < |values| :: ToJs(values[i]).Ok?
    ensures ToJsArray(values).Ok? ==>
              && |ToJsArray(values).value| == |values|
              && forall i | 0 <= i < |values| :: ToJs(values[i]) == Ok(ToJsArray(values).value[i])
  {
    var results := Map(ToJs, values);
    assert forall i | 0 <= i < |values| :: results[i] == ToJs(values[i]);
  }
}
