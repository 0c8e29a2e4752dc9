/** The Rust types the drivers bind and decode, and the storage class each maps to. */
module Types {
  import opened Wrappers
  import opened Powers
  import opened Doubles
  import opened Unicode
  import opened Values
  import opened Errors
  import opened JsBoundary

  datatype IntKind = I8 | I16 | I32 | U8 | U16 | U32 | I64 {
    function Min(): int {
      match this
      case I8 => -0x80
      case I16 => -0x8000
      case I32 => -0x8000_0000
      case I64 => -0x8000_0000_0000_0000
      case _ => 0
    }

    function Max(): int {
      match this
      case I8 => 0x7F
      case I16 => 0x7FFF
      case I32 => 0x7FFF_FFFF
      case U8 => 0xFF
      case U16 => 0xFFFF
      case U32 => 0xFFFF_FFFF
      case I64 => 0x7FFF_FFFF_FFFF_FFFF
    }
  }

  /** The text and byte containers all behave as `StrType` and `BytesType`; `Nullable` is Rust's `Option`. */
  datatype RustType =
    | BoolType
    | IntType(kind: IntKind)
    | F64Type
    | F32Type
    | StrType
    | BytesType
    | Nullable(inner: RustType)

  datatype RustValue =
    | BoolValue(truth: bool)
    | IntValue(integer: Int64)
    | FloatValue(number: Float64)
    | StrValue(text: string)
    | BytesValue(bytes: seq<Byte>)
    | NoValue

  /** The values of each Rust type. */
  predicate HasType(ty: RustType, value: RustValue) {
    match ty
    case BoolType => value.BoolValue?
    case IntType(kind) => value.IntValue? && kind.Min() <= value.integer <= kind.Max()
    case F64Type => value.FloatValue?
    case F32Type => value.FloatValue? && InFormat(BINARY32, value.number)
    case StrType => value.StrValue?
    case BytesType => value.BytesValue?
    case Nullable(inner) => value.NoValue? || HasType(inner, value)
  }

  /** What an encoder reports beside what it pushed. */
  datatype IsNull = Yes | No

  /** What `encode` pushes onto the arguments: nothing for a NULL, which is only reported. */
  function EncodeValue(ty: RustType, value: RustValue): Result<(seq<Value>, IsNull), EncodeError>
    requires HasType(ty, value)
  {
    match ty
    case BoolType => Ok(([Integer(if value.truth then 1 else 0)], No))
    case IntType(I64) =>
      (match SafeInteger(value.integer)
       case Ok(safe) => Ok(([Integer(safe)], No))
       case Err(error) => Err(error))
    case IntType(_) => Ok(([Integer(value.integer)], No))
    case F64Type => Ok(([Real(value.number)], No))
    case F32Type => Ok(([Real(value.number)], No))
    case StrType => Ok(([Text(value.text)], No))
    case BytesType => Ok(([Blob(value.bytes)], No))
    case Nullable(inner) => if value.NoValue? then Ok(([], Yes)) else EncodeValue(inner, value)
  }

  function DecodeValue(ty: RustType, value: Value): Result<RustValue, DecodeError> {
    match ty
    case BoolType =>
      (match AsInt(value)
       case Ok(i) => Ok(BoolValue(i != 0))
       case Err(error) => Err(error))
    case IntType(kind) =>
      (match AsInt(value)
       case Ok(i) => if kind.Min() <= i <= kind.Max() then Ok(IntValue(i)) else Err(OutOfRange(i))
       case Err(error) => Err(error))
    case F64Type =>
      (match AsReal(value)
       case Ok(d) => Ok(FloatValue(d))
       case Err(error) => Err(error))
    case F32Type =>
      (match AsReal(value)
       case Ok(d) =>
         F32IsF64(NarrowToF32(d));
         Ok(FloatValue(NarrowToF32(d)))
       case Err(error) => Err(error))
    case StrType =>
      (match AsText(value)
       case Ok(s) => Ok(StrValue(s))
       case Err(error) => Err(error))
    case BytesType =>
      (match AsBlob(value)
       case Ok(bytes) => Ok(BytesValue(bytes))
       case Err(error) => Err(error))
    case Nullable(inner) => if value.Null? then Ok(NoValue) else DecodeValue(inner, value)
  }

  /** The storage class a type is declared as. */
  function DeclaredType(ty: RustType): TypeInfo {
    match ty
    case BoolType => IntegerType
    case IntType(_) => IntegerType
    case F64Type => RealType
    case F32Type => RealType
    case StrType => TextType
    case BytesType => BlobType
    case Nullable(inner) => DeclaredType(inner)
  }

  /** The storage classes a checked read lets a type decode from. */
  predicate Compatible(ty: RustType, found: TypeInfo) {
    match ty
    case F64Type => found.RealType? || found.IntegerType?
    case F32Type => found.RealType? || found.IntegerType?
    case BytesType => found.BlobType? || found.TextType?
    case Nullable(inner) => Compatible(inner, found)
    case _ => found == DeclaredType(ty)
  }

  /** The same value, up to what JavaScript cannot tell apart: the sign of zero. */
  predicate SameValue(x: RustValue, y: RustValue) {
    x == y || (x.FloatValue? && y.FloatValue? && SameNumber(x.number, y.number))
  }

  /** What a bound value reads back as, by the exact path it takes: pushed, sent, returned and read. */
  function ReadBack(pushed: (seq<Value>, IsNull)): Result<Value, Error>
    requires pushed == ([], Yes) || |pushed.0| == 1
  {
    match ToJs(if pushed.1.Yes? then Null else pushed.0[0])
    case Ok(sent) => FromJs(sent)
    case Err(error) => Err(error)
  }

  /** Encoding fails for an unsafe `i64` and nothing else, and otherwise pushes one value or reports a NULL. */
  lemma {:induction false} EncodesExactly(ty: RustType, value: RustValue)
    requires HasType(ty, value)
    ensures EncodeValue(ty, value).Err? ==> value.IntValue? && !Safe(value.integer)
    ensures value.IntValue? && !Safe(value.integer) ==> EncodeValue(ty, value) == Err(UnsafeInteger(value.integer))
    ensures EncodeValue(ty, value).Ok? ==>
              var pushed := EncodeValue(ty, value).value;
              if value.NoValue? then pushed == ([], Yes) else |pushed.0| == 1 && pushed.1 == No
  {
    if ty.Nullable? && !value.NoValue? {
      EncodesExactly(ty.inner, value);
    }
  }

  /** Binary digits of an integer type, and whether it is signed. */
  function Width(kind: IntKind): (nat, bool) {
    match kind
    case I8 => (8, true)
    case I16 => (16, true)
    case I32 => (32, true)
    case I64 => (64, true)
    case U8 => (8, false)
    case U16 => (16, false)
    case U32 => (32, false)
  }

  /** An integer type holds what its width does, and all but `i64` hold only integers a JavaScript number holds exactly. */
  lemma NarrowIntegersAreSafe(kind: IntKind, i: int)
    ensures kind.Min() <= i <= kind.Max() <==>
              var (width, signed) := Width(kind); if signed then -Pow2(width - 1) <= i < Pow2(width - 1) else 0 <= i < Pow2(width)
    ensures kind.Min() <= i <= kind.Max() && !kind.I64? ==> Safe(i)
  {
    PowersOfBytes();
  }

  lemma PowersOfBytes()
    ensures Pow2(7) == 0x80 && Pow2(8) == 0x100 && Pow2(15) == 0x8000 && Pow2(16) == 0x1_0000
    ensures Pow2(31) == 0x8000_0000 && Pow2(32) == 0x1_0000_0000 && Pow2(63) == 0x8000_0000_0000_0000
  {
    assert Pow2(7) == 0x80;
    Pow2Sum(7, 1);
    Pow2Sum(7, 8);
    Pow2Sum(8, 8);
    Pow2Sum(15, 16);
    Pow2Sum(16, 16);
    Pow2Sum(31, 32);
  }

  /** What is stored has the storage class the type is declared as, a `bool` as 0 or 1, and decodes again without leaving Rust. */
  lemma {:induction false} StoredAsDeclared(ty: RustType, value: RustValue)
    requires HasType(ty, value) && EncodeValue(ty, value).Ok? && !value.NoValue?
    ensures |EncodeValue(ty, value).value.0| == 1
    ensures var stored := EncodeValue(ty, value).value.0[0];
            && TypeOf(stored) == DeclaredType(ty)
            && (value.BoolValue? ==> stored == Integer(if value.truth then 1 else 0))
            && DecodeValue(ty, stored) == Ok(value)
  {
    match ty
    case Nullable(inner) => StoredAsDeclared(inner, value);
    case F32Type => NarrowExact(value.number);
    case _ =>
  }

  /** Every value that encodes comes back through JavaScript, passes the type check, and decodes to itself. */
  lemma {:induction false} TypedRoundTrip(ty: RustType, value: RustValue)
    requires HasType(ty, value) && EncodeValue(ty, value).Ok?
    ensures EncodeValue(ty, value).value == ([], Yes) || |EncodeValue(ty, value).value.0| == 1
    ensures var back := ReadBack(EncodeValue(ty, value).value);
            && back.Ok?
            && (back.value.Null? <==> value.NoValue?)
            && (!value.NoValue? ==> Compatible(ty, TypeOf(back.value)))
            && DecodeValue(ty, back.value).Ok?
            && SameValue(DecodeValue(ty, back.value).value, value)
  {
    EncodesExactly(ty, value);
    match ty
    case Nullable(inner) =>
      if !value.NoValue? {
        TypedRoundTrip(inner, value);
      }
    case F64Type => FloatReadsBack(value.number);
    case F32Type =>
      FloatReadsBack(value.number);
      NarrowExact(value.number);
    case _ => BoundaryRoundTrip(EncodeValue(ty, value).value.0[0]);
  }

  /** A float crosses as itself, or as the integer it equals. */
  lemma FloatReadsBack(d: Float64)
    ensures var back := FromNumber(d); AsReal(back).Ok? && SameNumber(AsReal(back).value, d)
  {
    if FromNumber(d).Integer? {
      SafeIsDigits(WholeValue(d));
      WholeRoundTrip(d);
    }
  }

  /**
   The type check and the decoders agree: a non-NULL value decodes only from a compatible storage class,
   and from a compatible one fails only when an integer does not fit.
   */
  lemma {:induction false} CompatibleIsWhatDecodes(ty: RustType, value: Value)
    requires !value.Null?
    ensures DecodeValue(ty, value).Ok? ==> Compatible(ty, TypeOf(value)) && HasType(ty, DecodeValue(ty, value).value)
    ensures Compatible(ty, TypeOf(value)) ==>
              || DecodeValue(ty, value).Ok?
              || (value.Integer? && DecodeValue(ty, value) == Err(OutOfRange(value.integer)))
  {
    if ty.Nullable? {
      CompatibleIsWhatDecodes(ty.inner, value);
    }
  }

  /**
   What decodes, as what: a `bool` from any integer, true unless it is zero; an integer type from the integers it
   holds; a float from a real or an integer, rounded for `f32`; text from text; bytes from a BLOB, or from the UTF-8
   of a text; and an `Option` as its inner type does, or from NULL.
   */
  ghost predicate DecodesAs(ty: RustType, value: Value, decoded: RustValue) {
    match ty
    case BoolType => value.Integer? && decoded.BoolValue? && (decoded.truth <==> value.integer != 0)
    case IntType(kind) => value.Integer? && decoded == IntValue(value.integer) && HasType(ty, decoded)
    case F64Type => decoded.FloatValue? && IsFloat(value, decoded.number)
    case F32Type => decoded.FloatValue? && exists d: Float64 :: IsFloat(value, d) && decoded.number == NarrowToF32(d)
    case StrType => decoded.StrValue? && value == Text(decoded.text)
    case BytesType => decoded.BytesValue? && (value == Blob(decoded.bytes) || (value.Text? && IsUtf8(decoded.bytes, value.text)))
    case Nullable(inner) => if value.Null? then decoded == NoValue else DecodesAs(inner, value, decoded)
  }

  /** Whether `d` is the real, or the integer as a double. */
  predicate IsFloat(value: Value, d: Float64) {
    value == Real(d) || (value.Integer? && d == FromInt(value.integer))
  }

  /** A decode gives that, or the error that says why not: an integer that does not fit, or the storage class found. */
  lemma {:induction false} DecodesExactly(ty: RustType, value: Value)
    ensures forall decoded :: DecodeValue(ty, value) == Ok(decoded) <==> DecodesAs(ty, value, decoded)
    ensures DecodeValue(ty, value).Err? ==>
              DecodeValue(ty, value).error ==
                if value.Integer? && Compatible(ty, IntegerType) then OutOfRange(value.integer) else Mismatch(DeclaredType(ty), TypeOf(value))
  {
    match ty
    case Nullable(inner) => DecodesExactly(inner, value);
    case BytesType =>
      if value.Text? {
        forall bytes
          ensures Utf8(value.text) == bytes <==> IsUtf8(bytes, value.text)
        {
          StringBytesExactly(value.text, bytes);
        }
      }
    case _ =>
  }

  /** NULL decodes only into an `Option`. */
  lemma NullDecodesOnlyIntoOption(ty: RustType)
    ensures DecodeValue(ty, Null).Ok? <==> ty.Nullable?
  {
  }

  /** An `i64` beyond the bound, stored by other means, comes back as a REAL that no integer type decodes. */
  lemma WideIntegersDecodeAsNoInteger(stored: Int64, kind: IntKind)
    requires !Safe(stored)
    ensures FromJs(Number(FromInt(stored))).Ok?
    ensures var back := FromJs(Number(FromInt(stored))).value;
            DecodeValue(IntType(kind), back).Err? && DecodeValue(BoolType, back).Err? && DecodeValue(F64Type, back) == Ok(FloatValue(FromInt(stored)))
  {
    BeyondTheBound(stored);
  }

  /** Text read as bytes gives the bytes of that text and of no other. */
  lemma TextReadAsBytes(text: string, other: string)
    ensures ToJs(Text(text)).Ok? && FromJs(ToJs(Text(text)).value).Ok?
    ensures DecodeValue(BytesType, FromJs(ToJs(Text(text)).value).value) == Ok(BytesValue(Utf8(text)))
    ensures Utf8(text) == Utf8(other) ==> text == other
  {
    BoundaryRoundTrip(Text(text));
    if Utf8(text) == Utf8(other) {
      Utf8Injective(text, other);
    }
  }
}
