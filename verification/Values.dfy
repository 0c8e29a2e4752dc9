/** The drivers' own values, by SQLite's storage classes, and which integers a JavaScript number holds exactly. */
module Values {
  import opened Wrappers
  import opened Powers
  import opened Doubles
  import opened Unicode

  datatype TypeInfo = NullType | IntegerType | RealType | TextType | BlobType

  type Int64 = i: int | -0x8000_0000_0000_0000 <= i < 0x8000_0000_0000_0000

  datatype Value =
    | Null
    | Integer(integer: Int64)
    | Real(number: Float64)
    | Text(text: string)
    | Blob(bytes: seq<Byte>)

  datatype EncodeError = UnsafeInteger(integer: int) | EncoderFailed(reason: string)

  datatype DecodeError =
    | Mismatch(expected: TypeInfo, found: TypeInfo)
    | OutOfRange(integer: int)
    | UnexpectedJsType
    | NotAByte

  /** `Number.MAX_SAFE_INTEGER`, section 21.1.2.6 of ECMA-262: 2^53 - 1. */
  const MAX_SAFE_INTEGER: int := 0x1F_FFFF_FFFF_FFFF

  predicate Safe(i: int) {
    -MAX_SAFE_INTEGER <= i <= MAX_SAFE_INTEGER
  }

  function SafeInteger(value: Int64): Result<Int64, EncodeError> {
    if Safe(value) then Ok(value) else Err(UnsafeInteger(value))
  }

  /** The value a number is read as: an integer when it is a safe whole number, and a real otherwise. */
  function FromNumber(number: Float64): Value {
    if Whole(number) && Safe(WholeValue(number)) then Integer(WholeValue(number)) else Real(number)
  }

  type UInt64 = n: nat | n < 0x1_0000_0000_0000_0000

  /** `as u64`. */
  function AsU64(number: Float64): UInt64 {
    Truncated(number, 0, 0xFFFF_FFFF_FFFF_FFFF)
  }

  /** `as i64`. */
  function AsI64(number: Float64): Int64 {
    Truncated(number, -0x8000_0000_0000_0000, 0x7FFF_FFFF_FFFF_FFFF)
  }

  /** Both casts drop a fraction and go to the nearest bound. */
  lemma CastsTruncate(number: Float64)
    ensures TruncatesTo(number, 0, 0xFFFF_FFFF_FFFF_FFFF, AsU64(number))
    ensures TruncatesTo(number, -0x8000_0000_0000_0000, 0x7FFF_FFFF_FFFF_FFFF, AsI64(number))
  {
    TruncatedExactly(number, 0, 0xFFFF_FFFF_FFFF_FFFF);
    TruncatedExactly(number, -0x8000_0000_0000_0000, 0x7FFF_FFFF_FFFF_FFFF);
  }

  function TypeOf(value: Value): TypeInfo {
    match value
    case Null => NullType
    case Integer(_) => IntegerType
    case Real(_) => RealType
    case Text(_) => TextType
    case Blob(_) => BlobType
  }

  // ---- The accessors decoders use

  function AsInt(value: Value): Result<Int64, DecodeError> {
    match value
    case Integer(i) => Ok(i)
    case other => Err(Mismatch(IntegerType, TypeOf(other)))
  }

  function AsReal(value: Value): Result<Float64, DecodeError> {
    match value
    case Real(d) => Ok(d)
    case Integer(i) => Ok(FromInt(i))
    case other => Err(Mismatch(RealType, TypeOf(other)))
  }

  function AsText(value: Value): Result<string, DecodeError> {
    match value
    case Text(s) => Ok(s)
    case other => Err(Mismatch(TextType, TypeOf(other)))
  }

  function AsBlob(value: Value): Result<seq<Byte>, DecodeError> {
    match value
    case Blob(bytes) => Ok(bytes)
    case Text(s) => Ok(Utf8(s))
    case other => Err(Mismatch(BlobType, TypeOf(other)))
  }

  // ---- The bound

  /** The safe integers are those of at most 53 binary digits. */
  lemma SafeIsDigits(i: int)
    ensures Safe(i) <==> BitLength(Abs(i)) <= BINARY64.precision
  {
    Pow2Of53();
    BitLengthAtMost(Abs(i), BINARY64.precision);
  }

  lemma Pow2Of53()
    ensures Pow2(BINARY64.precision) == MAX_SAFE_INTEGER + 1
  {
    Pow2Of13();
    Pow2Sum(13, 13);
    Pow2Sum(26, 26);
    Pow2Sum(52, 1);
    assert Pow2(1) == 2;
  }

  lemma Pow2Of13()
    ensures Pow2(13) == 8192
  {
  }

  /** A cast to `f64` and back keeps an integer exactly when `safe_integer` accepts it. */
  lemma SafeIntegerIsExactness(value: Int64)
    ensures SafeInteger(value).Ok? <==> FromNumber(FromInt(value)) == Integer(value)
    ensures SafeInteger(value).Ok? ==> Whole(FromInt(value)) && WholeValue(FromInt(value)) == value
  {
    SafeIsDigits(value);
    if Safe(value) {
      FromIntExact(value);
    }
  }

  /** Distinct safe integers are distinct JavaScript numbers. */
  lemma SafeIntegersAreDistinct(a: Int64, b: Int64)
    requires Safe(a) && Safe(b)
    ensures FromInt(a) == FromInt(b) ==> a == b
  {
    SafeIntegerIsExactness(a);
    SafeIntegerIsExactness(b);
  }

  /** Outside the bound an integer is refused when bound, and its double reads back as no integer at all. */
  lemma BeyondTheBound(value: Int64)
    requires !Safe(value)
    ensures SafeInteger(value).Err?
    ensures var d := FromInt(value); d.Finite? && Whole(d) && Abs(WholeValue(d)) > MAX_SAFE_INTEGER
    ensures FromNumber(FromInt(value)) == Real(FromInt(value))
    ensures AsInt(FromNumber(FromInt(value))).Err?
  {
    SafeIsDigits(value);
    FromIntBeyond(value);
    Int64IsFinite(value);
    SafeIsDigits(WholeValue(FromInt(value)));
  }

  lemma Int64Digits(value: Int64)
    ensures BitLength(Abs(value)) <= 64
  {
    Pow2Of53();
    Pow2Sum(BINARY64.precision, 11);
    assert Pow2(11) == 2048;
    BitLengthAtMost(Abs(value), 64);
  }

  /** Only integers far wider than 64 bits overflow to an infinity. */
  lemma Int64IsFinite(value: Int64)
    ensures !FromInt(value).Infinity?
  {
    var m := Abs(value);
    if m != 0 {
      var p := BINARY64.precision;
      var q := Significand(BINARY64, m, 0);
      Int64Digits(value);
      SignificandBound(BINARY64, m, 0);
      Pow2Doubles(p, p + 1);
      BitLengthAtMost(q, p + 1);
      if q != 0 {
        NormalizeParts(Signed(value < 0, q), UnitExponent(BINARY64, m, 0));
      }
    }
  }

  /** The bound is tight: the first two integers beyond it are one JavaScript number. */
  lemma BoundIsTight()
    ensures SafeInteger(MAX_SAFE_INTEGER).Ok?
    ensures FromInt(MAX_SAFE_INTEGER + 1) == FromInt(MAX_SAFE_INTEGER + 2)
  {
    var p := BINARY64.precision;
    var m := MAX_SAFE_INTEGER + 1;
    Pow2Of53();
    Pow2Doubles(p, p + 1);
    assert Pow2(p + 1) == 2 * Pow2(p);
    BitLengthIs(m, p + 1);
    BitLengthIs(m + 1, p + 1);
    assert Pow2(1) == 2 * Pow2(0);
    assert HalfEven(m, 1) == HalfEven(m + 1, 1);
  }

  /** A count that crossed as a number is read exactly while it is safe, and as zero only when it is zero. */
  lemma CountsCrossExactly(count: nat)
    ensures Safe(count) ==> AsU64(FromInt(count)) == count
    ensures AsU64(FromInt(count)) == 0 <==> count == 0
  {
    SafeIsDigits(count);
    if Safe(count) {
      FromIntExact(count);
    } else {
      FromIntBeyond(count);
      var d := FromInt(count);
      if d.Finite? {
        ScaleLess(1, d.significand, Pow2(d.exponent));
      }
    }
  }

  /** A rowid within the bound crosses exactly too. */
  lemma RowidsCrossExactly(rowid: Int64)
    requires Safe(rowid)
    ensures AsI64(FromInt(rowid)) == rowid
  {
    SafeIsDigits(rowid);
    FromIntExact(rowid);
  }
}
