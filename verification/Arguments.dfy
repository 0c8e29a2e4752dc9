/** The parameters bound to one query. */
module Arguments {
  import opened Wrappers
  import opened Values
  import opened Types

  /**
   An encoder, which may belong to anyone: it is handed the values bound so far, leaves them as it
   likes, and reports a value, a NULL or a failure.
   */
  type Encoder = seq<Value> -> (seq<Value>, Result<IsNull, EncodeError>)

  /** Rust's `truncate`: no effect on a list already that short. */
  function Truncate(values: seq<Value>, len: nat): seq<Value> {
    if len <= |values| then values[..len] else values
  }

  /** The list and the report a bind ends with. */
  function Bind(values: seq<Value>, encoder: Encoder): (seq<Value>, Result<(), EncodeError>) {
    var (after, report) := encoder(values);
    match report
    case Ok(Yes) => (Truncate(after, |values|) + [Null], Ok(()))
    case Ok(No) => (after, Ok(()))
    case Err(error) => (Truncate(after, |values|), Err(error))
  }

  /** Binds that run one after another, a failed one being skipped. */
  function BindAll(values: seq<Value>, encoders: seq<Encoder>): seq<Value>
    decreases |encoders|
  {
    if encoders == [] then values else BindAll(Bind(values, encoders[0]).0, encoders[1..])
  }

  /** The encoder of one of the driver's own types. */
  function TypedEncoder(ty: RustType, value: RustValue): Encoder
    requires HasType(ty, value)
  {
    (values: seq<Value>) =>
      match EncodeValue(ty, value)
      case Ok((pushed, isNull)) => (values + pushed, Ok(isNull))
      case Err(error) => (values, Err(error))
  }

  class ArgumentList {
    var values: seq<Value>

    constructor ()
      ensures values == []
    {
      values := [];
    }

    /** Pushes a value of one of the driver's own types, as `encode` does. */
    method Encode(ty: RustType, value: RustValue) returns (report: Result<IsNull, EncodeError>)
      requires HasType(ty, value)
      modifies this
      ensures (values, report) == TypedEncoder(ty, value)(old(values))
    {
      var encoded := EncodeValue(ty, value);
      match encoded
      case Ok((pushed, isNull)) =>
        values := values + pushed;
        report := Ok(isNull);
      case Err(error) =>
        report := Err(error);
    }

    /** Encodes onto the list, as one placeholder's worth. */
    method Add(encoder: Encoder) returns (report: Result<(), EncodeError>)
      modifies this
      ensures (values, report) == Bind(old(values), encoder)
    {
      var len := |values|;
      var (after, outcome) := encoder(values);
      values := after;
      match outcome
      case Ok(Yes) =>
        values := Truncate(values, len);
        values := values + [Null];
        report := Ok(());
      case Ok(No) =>
        report := Ok(());
      case Err(error) =>
        values := Truncate(values, len);
        report := Err(error);
    }
  }

  // ---- What a bind leaves behind

  /** What one bind contributes: one value, or nothing. */
  predicate OnePlaceholder(before: seq<Value>, after: seq<Value>, report: Result<(), EncodeError>) {
    if report.Err? then after == before else |after| == |before| + 1 && after[..|before|] == before
  }

  /** What the encoder has to have done for that: keep what was there, and push one value if it reports one. */
  predicate KeepsPlaceholders(encoder: Encoder, before: seq<Value>) {
    var (after, report) := encoder(before);
    && before <= after
    && (report == Ok(No) ==> |after| == |before| + 1)
  }

  /** A bind is one placeholder's worth exactly when the encoder kept what was there and pushed one value for a value. */
  lemma BindIsOnePlaceholder(values: seq<Value>, encoder: Encoder)
    ensures OnePlaceholder(values, Bind(values, encoder).0, Bind(values, encoder).1) <==> KeepsPlaceholders(encoder, values)
    ensures Bind(values, encoder).1.Err? <==> encoder(values).1.Err?
    ensures Bind(values, encoder).1.Err? ==> Bind(values, encoder).1.error == encoder(values).1.error
  {
    var (after, report) := encoder(values);
    var n := |values|;
    if report.Ok? && report.value.Yes? && n <= |after| {
      assert (after[..n] + [Null])[..n] == after[..n];
    } else if report.Ok? && report.value.Yes? && n == |after| + 1 {
      assert (after + [Null])[..n] == after + [Null];
    }
    if n <= |after| {
      assert after[..n] == values <==> values <= after;
    }
  }

  /** "Left as it was" is not unconditional: an encoder that pops before failing loses a value already bound. */
  lemma APoppingEncoderLosesAValue()
    ensures exists encoder: Encoder, values ::
              Bind(values, encoder).1.Err? && Bind(values, encoder).0 != values
  {
    var popping: Encoder := (values: seq<Value>) => ([], Err(EncoderFailed("")));
    assert Bind([Null], popping).0 == [] && Bind([Null], popping).1.Err?;
  }

  /** The value a successful bind contributes. */
  function Contribution(encoder: Encoder, before: seq<Value>): seq<Value>
    requires KeepsPlaceholders(encoder, before)
  {
    var (after, report) := encoder(before);
    match report
    case Ok(Yes) => [Null]
    case Ok(No) => [after[|before|]]
    case Err(_) => []
  }

  /** The contributions of a run of binds, one value for each that succeeds, in order. */
  ghost function Contributions(values: seq<Value>, encoders: seq<Encoder>): seq<Value>
    requires RunKeepsPlaceholders(values, encoders)
    decreases |encoders|
  {
    if encoders == [] then []
    else Contribution(encoders[0], values) + Contributions(Bind(values, encoders[0]).0, encoders[1..])
  }

  predicate RunKeepsPlaceholders(values: seq<Value>, encoders: seq<Encoder>)
    decreases |encoders|
  {
    encoders == [] || (KeepsPlaceholders(encoders[0], values) && RunKeepsPlaceholders(Bind(values, encoders[0]).0, encoders[1..]))
  }

  /** How many binds of a run succeed. */
  function Successes(values: seq<Value>, encoders: seq<Encoder>): nat
    decreases |encoders|
  {
    if encoders == [] then 0
    else (if Bind(values, encoders[0]).1.Ok? then 1 else 0) + Successes(Bind(values, encoders[0]).0, encoders[1..])
  }

  lemma BindContributes(values: seq<Value>, encoder: Encoder)
    requires KeepsPlaceholders(encoder, values)
    ensures Bind(values, encoder).0 == values + Contribution(encoder, values)
    ensures |Contribution(encoder, values)| == if Bind(values, encoder).1.Ok? then 1 else 0
  {
    var (after, report) := encoder(values);
    assert after[..|values|] == values;
    if report == Ok(No) {
      assert after == after[..|values|] + [after[|values|]];
    }
  }

  /** Over any run of binds the list grows by one value for each that succeeds, in order, and failed ones leave no trace. */
  lemma {:induction false} PlaceholdersStayAligned(values: seq<Value>, encoders: seq<Encoder>)
    requires RunKeepsPlaceholders(values, encoders)
    ensures BindAll(values, encoders) == values + Contributions(values, encoders)
    ensures |BindAll(values, encoders)| == |values| + Successes(values, encoders)
    decreases |encoders|
  {
    if encoders == [] {
    } else {
      var encoder, rest := encoders[0], encoders[1..];
      var bound := Bind(values, encoder).0;
      var first := Contribution(encoder, values);
      BindContributes(values, encoder);
      PlaceholdersStayAligned(bound, rest);
      var later := Contributions(bound, rest);
      assert Contributions(values, encoders) == first + later;
      assert BindAll(values, encoders) == bound + later == values + (first + later);
    }
  }

  /** The driver's own types always take one placeholder: the encoded value, or a NULL. */
  lemma TypedBindsStayAligned(values: seq<Value>, ty: RustType, value: RustValue)
    requires HasType(ty, value)
    ensures KeepsPlaceholders(TypedEncoder(ty, value), values)
    ensures var (after, report) := Bind(values, TypedEncoder(ty, value));
            match EncodeValue(ty, value)
            case Err(error) => after == values && report == Err(error)
            case Ok((pushed, isNull)) => report == Ok(()) && after == values + (if value.NoValue? then [Null] else pushed)
  {
    EncodesExactly(ty, value);
  }
}
