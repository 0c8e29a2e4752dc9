/**
 IEEE 754 binary floating point, as far as a JavaScript number and Rust's `f32` need it:
 NaN, the infinities, both zeros, and the finite values m * 2^e.

 A finite non-zero value is kept with an odd significand, so every value has exactly one
 representation and Dafny's equality on it is equality of doubles (all NaNs being one).
 */
module Doubles {
  import opened Powers

  datatype Double =
    | NaN
    | Infinity(negative: bool)
    | Zero(negative: bool)
    | Finite(significand: int, exponent: int)

  /** A binary interchange format: digits of precision, least exponent, and the exponent at which values overflow. */
  datatype Format = Format(precision: nat, least: int, limit: int)

  const BINARY64 := Format(53, -1074, 1024)
  const BINARY32 := Format(24, -149, 128)

  /** These are the interchange formats of 64 and 32 bits, as section 3.6 of IEEE 754-2019 derives them from their widths. */
  lemma FormatsAreInterchange(bits: nat)
    requires bits == 64 || bits == 32
    ensures var f := if bits == 64 then BINARY64 else BINARY32;
            && f.precision == (if bits == 64 then 53 else 24)
            && f.limit == Pow2(bits - f.precision - 1) && f.least == 3 - f.limit - f.precision
  {
    assert Pow2(7) == 128;
    Pow2Sum(7, 3);
    assert Pow2(3) == 8;
  }

  predicate InFormat(f: Format, d: Double) {
    d.Finite? ==>
      && d.significand % 2 != 0
      && f.least <= d.exponent
      && BitLength(Abs(d.significand)) <= f.precision
      && d.exponent + BitLength(Abs(d.significand)) <= f.limit
  }

  /** A JavaScript number, and Rust's `f64`. */
  type Float64 = d: Double | InFormat(BINARY64, d) witness NaN

  /** Whether the value is a whole number, which is `fract() == 0.0`: false of NaN and the infinities. */
  predicate Whole(d: Double) {
    d.Zero? || (d.Finite? && d.exponent >= 0)
  }

  /** The integer a whole double stands for. */
  function WholeValue(d: Double): int
    requires Whole(d)
  {
    if d.Zero? then 0 else d.significand * Pow2(d.exponent)
  }

  /** Equal as numbers: the sign of zero does not matter, and NaN is matched by NaN. */
  predicate SameNumber(x: Double, y: Double) {
    x == y || (x.Zero? && y.Zero?)
  }

  // ---- Rounding to a format

  /** The double m * 2^e, by moving factors of two out of the significand. */
  function Normalize(m: int, e: int): Double
    requires m != 0
    decreases Abs(m)
  {
    if m % 2 == 0 then Normalize(m / 2, e + 1) else Finite(m, e)
  }

  /** The exponent of the last digit that rounding m * 2^e to the format keeps. */
  function UnitExponent(f: Format, m: nat, e: int): int {
    var t := e + BitLength(m) - f.precision;
    if t < f.least then f.least else t
  }

  /** m / 2^d, rounded to the nearest integer with ties to the even one. */
  function HalfEven(m: nat, d: nat): nat {
    var q, r := m / Pow2(d), m % Pow2(d);
    if 2 * r > Pow2(d) || (2 * r == Pow2(d) && q % 2 == 1) then q + 1 else q
  }

  /** What rounding m * 2^e keeps: a multiple of 2^UnitExponent. */
  function Significand(f: Format, m: nat, e: int): nat {
    var t := UnitExponent(f, m, e);
    if t <= e then m * Pow2(e - t) else HalfEven(m, t - e)
  }

  /** m * 2^e, negated if asked, as roundTiesToEven (section 4.3.1 of IEEE 754-2019) leaves it. */
  function Round(f: Format, negative: bool, m: nat, e: int): Double {
    if m == 0 then Zero(negative)
    else
      var t, q := UnitExponent(f, m, e), Significand(f, m, e);
      if q == 0 then Zero(negative)
      else if t + BitLength(q) > f.limit then Infinity(negative)
      else Normalize(Signed(negative, q), t)
  }

  function Signed(negative: bool, q: int): int {
    if negative then -q else q
  }

  // ---- Normal forms

  lemma {:induction false} NormalizeParts(m: int, e: int)
    requires m != 0
    ensures var d := Normalize(m, e);
            && d.Finite? && d.significand % 2 != 0 && d.exponent >= e
            && m == d.significand * Pow2(d.exponent - e)
            && (m > 0 <==> d.significand > 0)
    decreases Abs(m)
  {
    if m % 2 == 0 {
      NormalizeParts(m / 2, e + 1);
      var d := Normalize(m, e);
      DoubledProduct(d.significand, Pow2(d.exponent - (e + 1)));
    } else {
      assert Pow2(0) == 1;
    }
  }

  lemma DoubledProduct(a: int, b: int)
    ensures 2 * (a * b) == a * (2 * b)
  {
  }

  lemma NormalizeDouble(m: int, e: int)
    requires m != 0
    ensures Normalize(2 * m, e) == Normalize(m, e + 1)
  {
  }

  lemma {:induction false} NormalizeShift(m: int, k: nat, e: int)
    requires m != 0
    ensures m * Pow2(k) != 0
    ensures Normalize(m * Pow2(k), e) == Normalize(m, e + k)
    decreases k
  {
    if k == 0 {
      assert m * Pow2(0) == m;
    } else {
      NormalizeShift(m, k - 1, e + 1);
      NormalizeDouble(m * Pow2(k - 1), e);
      ProductAssociates(m, 2, Pow2(k - 1));
      ProductAssociates(2, m, Pow2(k - 1));
    }
  }

  /** The odd-significand form is unique: two equal values have the same parts. */
  lemma FiniteIsUnique(x: Double, y: Double)
    requires x.Finite? && y.Finite? && x.significand % 2 != 0 && y.significand % 2 != 0
    requires x.exponent <= y.exponent
    requires x.significand == y.significand * Pow2(y.exponent - x.exponent)
    ensures x == y
  {
    NormalizeShift(y.significand, y.exponent - x.exponent, x.exponent);
  }

  /** Every m * 2^e with |m| at most 2^p and the exponent in range is a value of the format. */
  lemma NormalizeInFormat(f: Format, m: int, e: int)
    requires m != 0 && f.least <= e
    requires Abs(m) <= Pow2(f.precision) && f.precision >= 1
    requires e + BitLength(Abs(m)) <= f.limit
    ensures InFormat(f, Normalize(m, e))
  {
    NormalizeParts(m, e);
    NormalizeDigits(m, e);
    NormalizeFits(m, e, f.precision);
  }

  /** The same of the magnitudes. */
  lemma NormalizeMagnitude(m: int, e: int)
    requires m != 0
    ensures var d := Normalize(m, e);
            && d.Finite? && d.exponent >= e
            && Abs(d.significand) % 2 != 0 && Abs(m) == Abs(d.significand) * Pow2(d.exponent - e)
  {
    NormalizeParts(m, e);
    var d := Normalize(m, e);
    OddMagnitude(m, d.significand, Pow2(d.exponent - e));
  }

  lemma OddMagnitude(m: int, a: int, b: int)
    requires m == a * b && b >= 1 && a % 2 != 0
    ensures Abs(a) % 2 != 0 && Abs(m) == Abs(a) * b
  {
    AbsProduct(a, b);
  }

  lemma NormalizeDigits(m: int, e: int)
    requires m != 0
    ensures var d := Normalize(m, e); d.Finite? && d.exponent + BitLength(Abs(d.significand)) == e + BitLength(Abs(m))
  {
    NormalizeMagnitude(m, e);
    var d := Normalize(m, e);
    BitLengthShift(Abs(d.significand), d.exponent - e);
  }

  lemma NormalizeFits(m: int, e: int, p: nat)
    requires m != 0 && p >= 1 && Abs(m) <= Pow2(p)
    ensures var d := Normalize(m, e); d.Finite? && BitLength(Abs(d.significand)) <= p
  {
    NormalizeMagnitude(m, e);
    var d := Normalize(m, e);
    OddSignificandFits(Abs(d.significand), d.exponent - e, p);
  }

  lemma AbsProduct(a: int, b: int)
    requires b >= 1
    ensures Abs(a * b) == Abs(a) * b
  {
    if a < 0 {
      ScaleLess(a, 0, b);
      assert -(a * b) == (-a) * b;
    } else {
      ScaleLess(0, a, b);
    }
  }

  /** An odd significand fits the precision even when the value is the power of two just above it. */
  lemma OddSignificandFits(s: nat, k: nat, p: nat)
    requires s % 2 != 0 && p >= 1 && s * Pow2(k) <= Pow2(p)
    ensures BitLength(s) <= p
  {
    var half := Pow2(p - 1);
    BitLengthAtMost(s, p);
    if k == 0 {
      assert s * Pow2(0) == s;
      OddBelowEven(s, half);
    } else {
      Pow2Doubles(0, k);
      FactorOfTwo(s, Pow2(k), half);
    }
  }

  lemma OddBelowEven(s: nat, half: int)
    requires s % 2 != 0 && s <= 2 * half
    ensures s < 2 * half
  {
  }

  lemma FactorOfTwo(s: nat, factor: int, half: int)
    requires factor >= 2 && half >= 1 && s * factor <= 2 * half
    ensures s < 2 * half
  {
    ScaleLess(2, factor, s);
  }

  // ---- What rounding does

  lemma SignificandBound(f: Format, m: nat, e: int)
    requires m > 0 && f.precision >= 1
    ensures Significand(f, m, e) <= Pow2(f.precision)
  {
    var t, b, p := UnitExponent(f, m, e), BitLength(m), f.precision;
    BitLengthBounds(m);
    if t <= e {
      BitLengthShift(m, e - t);
      BitLengthAtMost(m * Pow2(e - t), p);
    } else {
      var d := t - e;
      Pow2Monotone(b, p + d);
      Pow2Sum(p, d);
      QuotientBelow(m, Pow2(d), Pow2(p));
    }
  }

  lemma QuotientBelow(m: nat, d: int, bound: int)
    requires d >= 1 && m < bound * d
    ensures m / d < bound
  {
    if m / d >= bound {
      ScaleLess(bound, m / d, d);
    }
  }

  /** The result is always a value of the format. */
  lemma RoundInFormat(f: Format, negative: bool, m: nat, e: int)
    requires f.precision >= 1
    ensures InFormat(f, Round(f, negative, m, e))
  {
    if m > 0 {
      var t, q := UnitExponent(f, m, e), Significand(f, m, e);
      SignificandBound(f, m, e);
      if q != 0 && t + BitLength(q) <= f.limit {
        NormalizeInFormat(f, Signed(negative, q), t);
      }
    }
  }

  /** The rounded value is the kept multiple of the unit: zero, too large, or exactly it. */
  lemma RoundIsTheKeptMultiple(f: Format, negative: bool, m: nat, e: int)
    requires m > 0
    ensures var t, q, d := UnitExponent(f, m, e), Significand(f, m, e), Round(f, negative, m, e);
            && (d == Zero(negative) <==> q == 0)
            && (d == Infinity(negative) <==> q != 0 && t + BitLength(q) > f.limit)
            && (d.Finite? <==> q != 0 && t + BitLength(q) <= f.limit)
            && (d.Finite? ==> t <= d.exponent && Signed(negative, q) == d.significand * Pow2(d.exponent - t))
  {
    var t, q := UnitExponent(f, m, e), Significand(f, m, e);
    if q != 0 {
      NormalizeParts(Signed(negative, q), t);
    }
  }

  /** A value already in the format is left alone. */
  lemma RoundExact(f: Format, d: Double)
    requires d.Finite? && InFormat(f, d) && f.precision >= 1
    ensures Round(f, d.significand < 0, Abs(d.significand), d.exponent) == d
  {
    var m, e, negative := Abs(d.significand), d.exponent, d.significand < 0;
    var t := UnitExponent(f, m, e);
    var k := e - t;
    BitLengthShift(m, k);
    assert Significand(f, m, e) == m * Pow2(k);
    SignedProduct(negative, m, Pow2(k));
    NormalizeShift(d.significand, k, t);
    assert Normalize(d.significand, e) == d;
  }

  /**
   Rounding is to the nearest: no n * 2^g of the format (n < 2^p, g at least the least exponent) is
   closer to m * 2^e than Significand * 2^UnitExponent, and one as close leaves the kept significand even.
   Distances are compared in units of 2^s, for any s small enough to make all three whole.
   */
  lemma RoundIsNearestEven(f: Format, m: nat, e: int, n: nat, g: int, s: int)
    requires m > 0 && f.precision >= 1
    requires n < Pow2(f.precision) && f.least <= g
    requires s <= e && s <= g && s <= UnitExponent(f, m, e)
    ensures NearerOrEven(m * Pow2(e - s), Significand(f, m, e) * Pow2(UnitExponent(f, m, e) - s), n * Pow2(g - s),
                         Significand(f, m, e))
  {
    var t, q := UnitExponent(f, m, e), Significand(f, m, e);
    if t <= e {
      Pow2Sum(e - t, t - s);
      ProductAssociates(m, Pow2(e - t), Pow2(t - s));
    } else if t <= g {
      Pow2Sum(g - t, t - s);
      ProductAssociates(n, Pow2(g - t), Pow2(t - s));
      NearestMultiple(m, e, t, n * Pow2(g - t), s);
    } else {
      var floor := m / Pow2(t - e);
      NearestMultiple(m, e, t, floor, s);
      BelowTheUnit(f, m, e, n, g, s);
      FloorBelow(m, e, t, s);
      Farther(m * Pow2(e - s), q * Pow2(t - s), floor * Pow2(t - s), n * Pow2(g - s), q);
    }
  }

  /** Among the multiples of 2^t, in units of 2^s. */
  lemma NearestMultiple(m: nat, e: int, t: int, k: int, s: int)
    requires s <= e < t
    ensures NearerOrEven(m * Pow2(e - s), HalfEven(m, t - e) * Pow2(t - s), k * Pow2(t - s), HalfEven(m, t - e))
  {
    var q, unit, scale := HalfEven(m, t - e), Pow2(t - e), Pow2(e - s);
    HalfEvenIsNearest(m, t - e, k);
    Scaled(m, q * unit, k * unit, q, scale);
    Pow2Sum(t - e, e - s);
    ProductAssociates(q, unit, scale);
    ProductAssociates(k, unit, scale);
  }

  lemma FloorBelow(m: nat, e: int, t: int, s: int)
    requires s <= e < t
    ensures m / Pow2(t - e) * Pow2(t - s) <= m * Pow2(e - s)
  {
    var unit, scale := Pow2(t - e), Pow2(e - s);
    Pow2Sum(t - e, e - s);
    ProductAssociates(m / unit, unit, scale);
    FloorMultiple(m, unit);
    ScaleLess(m / unit * unit, m, scale);
  }

  lemma FloorMultiple(m: nat, unit: int)
    requires unit >= 1
    ensures m / unit * unit <= m
  {
  }

  /** `d` is at least as close to `x` as `y` is, and a different `y` as close leaves `q` even. */
  ghost predicate NearerOrEven(x: int, d: int, y: int, q: int) {
    && Abs(x - d) <= Abs(x - y)
    && (Abs(x - d) == Abs(x - y) && d != y ==> q % 2 == 0)
  }

  lemma Farther(x: int, d: int, floor: int, y: int, q: int)
    requires NearerOrEven(x, d, floor, q) && y < floor <= x
    ensures NearerOrEven(x, d, y, q)
  {
  }

  lemma Scaled(x: int, d: int, y: int, q: int, scale: int)
    requires NearerOrEven(x, d, y, q) && scale >= 1
    ensures NearerOrEven(x * scale, d * scale, y * scale, q)
  {
    ScaledDistance(x, d, scale);
    ScaledDistance(x, y, scale);
    if Abs(x - d) < Abs(x - y) {
      ScaleStrict(Abs(x - d), Abs(x - y), scale);
    }
  }

  lemma ScaledDistance(a: int, b: int, scale: int)
    requires scale >= 1
    ensures Abs(a * scale - b * scale) == Abs(a - b) * scale
  {
    assert a * scale - b * scale == (a - b) * scale;
    if a < b {
      assert (b - a) * scale == -((a - b) * scale);
      ScaleStrict(a - b, 0, scale);
    } else {
      ScaleLess(0, a - b, scale);
    }
  }

  lemma ProductAssociates(a: int, b: int, c: int)
    ensures a * (b * c) == (a * b) * c
  {
  }

  /** On the grid of multiples of 2^d, half-even rounding is nearest, and even when it ties. */
  lemma HalfEvenIsNearest(m: nat, d: nat, k: int)
    ensures NearerOrEven(m, HalfEven(m, d) * Pow2(d), k * Pow2(d), HalfEven(m, d))
  {
    RoundedMultiple(m / Pow2(d), m % Pow2(d), Pow2(d), k, HalfEven(m, d));
    QuotientAndRest(m, Pow2(d));
  }

  lemma QuotientAndRest(m: nat, unit: int)
    requires unit >= 1
    ensures m == m / unit * unit + m % unit
  {
  }

  /** The multiple rounded to is as near as any. */
  lemma RoundedMultiple(floor: int, r: int, unit: int, k: int, q: int)
    requires 0 <= r < unit
    requires q == if 2 * r > unit || (2 * r == unit && floor % 2 == 1) then floor + 1 else floor
    ensures NearerOrEven(floor * unit + r, q * unit, k * unit, q)
  {
    OnTheGrid(floor, k, unit);
    OnTheGrid(floor, q, unit);
    NearestOnTheGrid(floor * unit, r, unit, q * unit, k * unit, q);
  }

  /** The nearer of the two multiples around a number is the nearest of all. */
  lemma NearestOnTheGrid(floor: int, r: int, unit: int, near: int, other: int, q: int)
    requires 0 <= r < unit && near in {floor, floor + unit}
    requires if near == floor then 2 * r <= unit else 2 * r >= unit
    requires 2 * r == unit ==> q % 2 == 0
    requires other <= floor - unit || other == floor || other >= floor + unit
    ensures NearerOrEven(floor + r, near, other, q)
  {
  }

  /** Multiples are a unit apart. */
  lemma OnTheGrid(floor: int, k: int, unit: int)
    requires unit >= 1
    ensures k < floor ==> k * unit <= floor * unit - unit
    ensures k == floor + 1 ==> k * unit == floor * unit + unit
    ensures k > floor ==> k * unit >= floor * unit + unit
  {
    assert (floor - 1) * unit == floor * unit - unit && (floor + 1) * unit == floor * unit + unit;
    if k < floor {
      ScaleLess(k, floor - 1, unit);
    } else if k > floor {
      ScaleLess(floor + 1, k, unit);
    }
  }

  /** A value with a finer unit than the rounded one's lies below the rounded value's whole binade. */
  lemma BelowTheUnit(f: Format, m: nat, e: int, n: nat, g: int, s: int)
    requires m > 0 && f.precision >= 1
    requires n < Pow2(f.precision) && f.least <= g
    requires s <= e && s <= g
    requires e < UnitExponent(f, m, e) && g < UnitExponent(f, m, e)
    ensures n * Pow2(g - s) < m / Pow2(UnitExponent(f, m, e) - e) * Pow2(UnitExponent(f, m, e) - s)
  {
    var t, p := UnitExponent(f, m, e), f.precision;
    LeadingDigitKept(m, p, t - e);
    ScaleStrict(n, Pow2(p), Pow2(g - s));
    Pow2Sum(p, g - s);
    Pow2Monotone(p + (g - s), p - 1 + (t - s));
    Pow2Sum(p - 1, t - s);
    ScaleLess(Pow2(p - 1), m / Pow2(t - e), Pow2(t - s));
  }

  /** Dropping `d` digits of a numeral of p + d leaves one of p. */
  lemma LeadingDigitKept(m: nat, p: nat, d: nat)
    requires p >= 1 && BitLength(m) == p + d
    ensures Pow2(p - 1) <= m / Pow2(d)
  {
    BitLengthBounds(m);
    Pow2Sum(p - 1, d);
    QuotientAtLeast(m, Pow2(d), Pow2(p - 1));
  }

  lemma QuotientAtLeast(m: nat, d: int, bound: int)
    requires d >= 1 && bound * d <= m
    ensures bound <= m / d
  {
    if m / d < bound {
      ScaleLess(m / d + 1, bound, d);
    }
  }

  // ---- The casts the drivers make

  /** `as f64` on an integer. */
  function FromInt(i: int): (d: Float64)
    ensures !d.NaN?
  {
    RoundInFormat(BINARY64, i < 0, Abs(i), 0);
    RoundNeverNaN(BINARY64, i < 0, Abs(i), 0);
    Round(BINARY64, i < 0, Abs(i), 0)
  }

  /** `as f32` on an `f64`, the result kept as the double it equals. */
  function NarrowToF32(d: Float64): (r: Double)
    ensures InFormat(BINARY32, r)
  {
    match d
    case Finite(m, e) =>
      RoundInFormat(BINARY32, m < 0, Abs(m), e);
      Round(BINARY32, m < 0, Abs(m), e)
    case _ => d
  }

  /** `as` from a double to an integer type: toward zero, to the nearest bound when out of range, and zero for NaN. */
  function Truncated(d: Double, min: int, max: int): (i: int)
    requires min <= 0 <= max
    ensures min <= i <= max
  {
    var i := match d
      case NaN => 0
      case Infinity(negative) => if negative then min else max
      case Zero(_) => 0
      case Finite(m, e) =>
        if e >= 0 then m * Pow2(e)
        else if m < 0 then -(-m / Pow2(-e))
        else m / Pow2(-e);
    if i < min then min else if i > max then max else i
  }

  /** Whether q * 2^t is as near to m * 2^e as any value of the format is, and even if another is as near. */
  ghost predicate IsNearest(f: Format, m: nat, e: int, q: nat, t: int) {
    forall n, g, s :: IsNearerThan(f, m, e, q, t, n, g, s)
  }

  /** The same of one value n * 2^g, in units of 2^s that make all three whole. */
  ghost predicate IsNearerThan(f: Format, m: nat, e: int, q: nat, t: int, n: nat, g: int, s: int) {
    n < Pow2(f.precision) && f.least <= g && s <= e && s <= g && s <= t ==>
      NearerOrEven(m * Pow2(e - s), q * Pow2(t - s), n * Pow2(g - s), q)
  }

  /**
   Whether a cast of m * 2^e, negated if asked, may give `d`: a nearest value q * 2^t of the format, with all the
   digits the format has unless t is its least exponent, or the infinity when that value overflows.
   */
  ghost predicate RoundsTo(f: Format, negative: bool, m: nat, e: int, d: Double) {
    f.precision >= 1 && exists q: nat, t: int ::
      && IsNearest(f, m, e, q, t)
      && f.least <= t && q <= Pow2(f.precision) && (t == f.least || Pow2(f.precision - 1) <= q)
      && if q == 0 then d == Zero(negative)
         else if t + BitLength(q) > f.limit then d == Infinity(negative)
         else d.Finite? && d.significand % 2 != 0 && t <= d.exponent && Signed(negative, q) == d.significand * Pow2(d.exponent - t)
  }

  lemma RoundIsCorrect(f: Format, negative: bool, m: nat, e: int)
    requires m > 0 && f.precision >= 1
    ensures RoundsTo(f, negative, m, e, Round(f, negative, m, e))
  {
    var t, q := UnitExponent(f, m, e), Significand(f, m, e);
    forall n: nat, g, s
      ensures IsNearerThan(f, m, e, q, t, n, g, s)
    {
      if n < Pow2(f.precision) && f.least <= g && s <= e && s <= g && s <= t {
        RoundIsNearestEven(f, m, e, n, g, s);
      }
    }
    assert IsNearest(f, m, e, q, t);
    SignificandBound(f, m, e);
    SignificandIsFull(f, m, e);
    RoundIsTheKeptMultiple(f, negative, m, e);
    if q != 0 {
      NormalizeParts(Signed(negative, q), t);
    }
  }

  lemma SignificandIsFull(f: Format, m: nat, e: int)
    requires m > 0 && f.precision >= 1
    ensures f.least <= UnitExponent(f, m, e)
    ensures UnitExponent(f, m, e) == f.least || Pow2(f.precision - 1) <= Significand(f, m, e)
  {
    var t, p := UnitExponent(f, m, e), f.precision;
    if f.least < t <= e {
      FullWhenExact(m, e - t, p);
    } else if t > f.least {
      LeadingDigitKept(m, p, t - e);
    }
  }

  lemma FullWhenExact(m: nat, k: nat, p: nat)
    requires m > 0 && p >= 1 && BitLength(m) + k == p
    ensures Pow2(p - 1) <= m * Pow2(k)
  {
    BitLengthShift(m, k);
    BitLengthBounds(m * Pow2(k));
  }

  /** The casts the drivers make are correct rounding: of an integer to a double, and of a double to a single. */
  lemma CastsRoundCorrectly(i: int, d: Float64)
    ensures i != 0 ==> RoundsTo(BINARY64, i < 0, Abs(i), 0, FromInt(i))
    ensures i == 0 ==> FromInt(i) == Zero(false)
    ensures if d.Finite? then RoundsTo(BINARY32, d.significand < 0, Abs(d.significand), d.exponent, NarrowToF32(d)) else NarrowToF32(d) == d
  {
    if i != 0 {
      RoundIsCorrect(BINARY64, i < 0, Abs(i), 0);
    }
    if d.Finite? {
      RoundIsCorrect(BINARY32, d.significand < 0, Abs(d.significand), d.exponent);
    }
  }

  /** Whether `i` is m * 2^e without its fraction. */
  ghost predicate TowardZero(m: int, e: int, i: int) {
    if e >= 0 then i == m * Pow2(e)
    else
      && Abs(i) * Pow2(-e) <= Abs(m) < (Abs(i) + 1) * Pow2(-e)
      && (i > 0 ==> m > 0) && (i < 0 ==> m < 0)
  }

  /** Whether a cast to an integer type of these bounds gives `i`: the value without its fraction, or else the nearest bound; zero for NaN. */
  ghost predicate TruncatesTo(d: Double, min: int, max: int, i: int) {
    match d
    case NaN => i == 0
    case Infinity(negative) => i == if negative then min else max
    case Zero(_) => i == 0
    case Finite(m, e) => exists whole :: TowardZero(m, e, whole) && i == if whole < min then min else if whole > max then max else whole
  }

  lemma TruncatedExactly(d: Double, min: int, max: int)
    requires min <= 0 <= max
    ensures TruncatesTo(d, min, max, Truncated(d, min, max))
  {
    if d.Finite? {
      var m, e := d.significand, d.exponent;
      var whole := if e >= 0 then m * Pow2(e) else if m < 0 then -(-m / Pow2(-e)) else m / Pow2(-e);
      if e < 0 {
        WholePart(Abs(m), Pow2(-e));
      }
      assert TowardZero(m, e, whole);
    }
  }

  lemma WholePart(m: nat, unit: int)
    requires unit >= 1
    ensures m / unit >= 0 && m / unit * unit <= m < (m / unit + 1) * unit
  {
    QuotientAndRest(m, unit);
    assert (m / unit + 1) * unit == m / unit * unit + unit;
  }

  lemma RoundNeverNaN(f: Format, negative: bool, m: nat, e: int)
    ensures !Round(f, negative, m, e).NaN?
  {
    if m > 0 {
      var t, q := UnitExponent(f, m, e), Significand(f, m, e);
      if q != 0 {
        NormalizeParts(Signed(negative, q), t);
      }
    }
  }

  /** Every `f32` is an `f64`: `f64::from` loses nothing. */
  lemma F32IsF64(d: Double)
    requires InFormat(BINARY32, d)
    ensures InFormat(BINARY64, d)
  {
  }

  /** An integer of at most 53 digits is its own double. */
  lemma FromIntExact(i: int)
    requires BitLength(Abs(i)) <= BINARY64.precision
    ensures Whole(FromInt(i)) && WholeValue(FromInt(i)) == i
    ensures i != 0 ==> FromInt(i) == Normalize(i, 0)
  {
    if i != 0 {
      FromIntNormalized(i);
      NormalizeParts(i, 0);
    }
  }

  lemma FromIntNormalized(i: int)
    requires i != 0 && BitLength(Abs(i)) <= BINARY64.precision
    ensures FromInt(i) == Normalize(i, 0)
  {
    var m := Abs(i);
    var k := BINARY64.precision - BitLength(m);
    assert UnitExponent(BINARY64, m, 0) == -k;
    BitLengthShift(m, k);
    SignedProduct(i < 0, m, Pow2(k));
    NormalizeShift(i, k, -k);
  }

  lemma SignedProduct(negative: bool, m: nat, k: nat)
    ensures m * k >= 0
    ensures Signed(negative, m * k) == Signed(negative, m) * k
  {
  }

  /** An integer of more than 53 digits becomes a whole double of more than 53 digits, or an infinity. */
  lemma FromIntBeyond(i: int)
    requires BitLength(Abs(i)) > BINARY64.precision
    ensures || FromInt(i) == Infinity(i < 0)
            || (FromInt(i).Finite? && Whole(FromInt(i)) && BitLength(Abs(WholeValue(FromInt(i)))) > BINARY64.precision)
    ensures FromInt(i).Finite? ==> (FromInt(i).significand > 0 <==> i > 0)
  {
    var m, p := Abs(i), BINARY64.precision;
    var d := BitLength(m) - p;
    assert UnitExponent(BINARY64, m, 0) == d;
    var q := HalfEven(m, d);
    LeadingDigitKept(m, p, d);
    BitLengthAtMost(q, p - 1);
    WideWhole(i < 0, q, d);
  }

  /** A significand of full precision in a unit above one is a whole number of more digits than the precision. */
  lemma WideWhole(negative: bool, q: nat, d: nat)
    requires q > 0
    ensures var r := Normalize(Signed(negative, q), d);
            && r.Finite? && Whole(r) && BitLength(Abs(WholeValue(r))) == BitLength(q) + d && (r.significand > 0 <==> !negative)
  {
    var m := Signed(negative, q);
    WholeOfNormalized(m, d);
    NormalizeParts(m, d);
    BitLengthShift(q, d);
    AbsProduct(m, Pow2(d));
  }

  lemma WholeOfNormalized(m: int, e: nat)
    requires m != 0
    ensures Normalize(m, e).Finite? && Whole(Normalize(m, e)) && WholeValue(Normalize(m, e)) == m * Pow2(e)
  {
    NormalizeParts(m, e);
    var r := Normalize(m, e);
    Pow2Sum(r.exponent - e, e);
    ProductAssociates(r.significand, Pow2(r.exponent - e), Pow2(e));
  }

  /** A whole double that fits survives the trip through an integer, except for the sign of zero. */
  lemma WholeRoundTrip(d: Float64)
    requires Whole(d) && BitLength(Abs(WholeValue(d))) <= BINARY64.precision
    ensures SameNumber(FromInt(WholeValue(d)), d)
    ensures d.Finite? ==> WholeValue(d) != 0
  {
    if d.Finite? {
      NormalizeShift(d.significand, d.exponent, 0);
      FromIntExact(WholeValue(d));
    }
  }

  /** Narrowing an `f32`'s double gives the `f32` back. */
  lemma NarrowExact(d: Float64)
    requires InFormat(BINARY32, d)
    ensures NarrowToF32(d) == d
  {
    if d.Finite? {
      RoundExact(BINARY32, d);
    }
  }
}
