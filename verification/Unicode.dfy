/**
 Text on the two sides of the boundary: Unicode scalar values in Rust, UTF-16 code units in
 JavaScript, and the UTF-8 bytes behind a Rust string.
 */
module Unicode {

  type Unit = u: int | 0 <= u < 0x1_0000
  type Byte = b: int | 0 <= b < 0x100

  // ---- UTF-16

  function EncodeChar(c: char): seq<Unit> {
    if c as int < 0x1_0000 then [c as int]
    else
      var v := c as int - 0x1_0000;
      [0xD800 + v / 0x400, 0xDC00 + v % 0x400]
  }

  /** A Rust string as a JavaScript one. */
  function ToUtf16(s: string): seq<Unit> {
    if s == "" then [] else EncodeChar(s[0]) + ToUtf16(s[1..])
  }

  predicate High(u: Unit) {
    0xD800 <= u < 0xDC00
  }

  predicate Low(u: Unit) {
    0xDC00 <= u < 0xE000
  }

  /** The character a surrogate pair stands for. */
  function Pair(high: int, low: int): char
    requires 0xD800 <= high < 0xDC00 <= low < 0xE000
  {
    (0x1_0000 + (high - 0xD800) * 0x400 + (low - 0xDC00)) as char
  }

  /** A JavaScript string as a Rust one; an unpaired surrogate becomes U+FFFD. */
  function FromUtf16(units: seq<Unit>): string {
    if units == [] then ""
    else if High(units[0]) && |units| > 1 && Low(units[1]) then
      [Pair(units[0], units[1])] + FromUtf16(units[2..])
    else if High(units[0]) || Low(units[0]) then
      [0xFFFD as char] + FromUtf16(units[1..])
    else
      [units[0] as char] + FromUtf16(units[1..])
  }

  /** No Rust string is changed by going through JavaScript. */
  lemma {:induction false} Utf16RoundTrip(s: string)
    ensures FromUtf16(ToUtf16(s)) == s
  {
    if s == "" {
    } else {
      var head, rest := EncodeChar(s[0]), ToUtf16(s[1..]);
      var units := ToUtf16(s);
      assert units == head + rest;
      assert units[|head|..] == rest;
      Utf16RoundTrip(s[1..]);
      assert s == [s[0]] + s[1..];
    }
  }

  /** What a Rust string is in JavaScript: a unit for a character below U+10000, and otherwise the surrogate pair that stands for it. */
  lemma {:induction false} UnitsOfAString(s: string, c: char)
    ensures ToUtf16([c] + s)[|ToUtf16([c] + s)| - |ToUtf16(s)|..] == ToUtf16(s)
    ensures |ToUtf16([c] + s)| - |ToUtf16(s)| == if c as int < 0x1_0000 then 1 else 2
    ensures var units := ToUtf16([c] + s);
            if c as int < 0x1_0000 then units[0] == c as int
            else High(units[0]) && Low(units[1]) && Pair(units[0], units[1]) == c
  {
    assert ([c] + s)[0] == c && ([c] + s)[1..] == s;
  }

  /** Whether unit `i`, if it is a surrogate, has its other half beside it. */
  predicate PairedAt(units: seq<Unit>, i: nat)
    requires i < |units|
  {
    && (High(units[i]) ==> i + 1 < |units| && Low(units[i + 1]))
    && (Low(units[i]) ==> i > 0 && High(units[i - 1]))
  }

  /** Every surrogate is one of a pair, high before low. */
  predicate Paired(units: seq<Unit>) {
    forall i | 0 <= i < |units| :: PairedAt(units, i)
  }

  /** A JavaScript string is read without loss exactly when all its surrogates are paired. */
  lemma {:induction false} ReadWithoutLossExactly(units: seq<Unit>)
    ensures ToUtf16(FromUtf16(units)) == units <==> Paired(units)
    decreases |units|
  {
    if units == [] {
    } else if High(units[0]) && |units| > 1 && Low(units[1]) {
      var c, rest := Pair(units[0], units[1]), units[2..];
      ReadWithoutLossExactly(rest);
      PairedAfterAPair(units);
      ReadOneMore(c, FromUtf16(rest), [units[0], units[1]], rest);
      assert units == [units[0], units[1]] + rest;
    } else if High(units[0]) || Low(units[0]) {
      assert !PairedAt(units, 0);
      UnitsOfAString(FromUtf16(units[1..]), 0xFFFD as char);
      assert ToUtf16(FromUtf16(units))[0] != units[0];
    } else {
      var c, rest := units[0] as char, units[1..];
      ReadWithoutLossExactly(rest);
      PairedAfterAUnit(units);
      ReadOneMore(c, FromUtf16(rest), [units[0]], rest);
      assert units == [units[0]] + rest;
    }
  }

  /** What is lost is marked: a string with an unpaired surrogate is read with a U+FFFD in it. */
  lemma {:induction false} LossIsMarked(units: seq<Unit>)
    requires !Paired(units)
    ensures 0xFFFD as char in FromUtf16(units)
    decreases |units|
  {
    if High(units[0]) && |units| > 1 && Low(units[1]) {
      PairedAfterAPair(units);
      LossIsMarked(units[2..]);
    } else if !High(units[0]) && !Low(units[0]) {
      PairedAfterAUnit(units);
      LossIsMarked(units[1..]);
    }
  }

  /** How many units the first character read takes. */
  function HeadLength(units: seq<Unit>): (n: nat)
    requires units != []
    ensures 0 < n <= |units|
  {
    if High(units[0]) && |units| > 1 && Low(units[1]) then 2 else 1
  }

  lemma HeadRead(units: seq<Unit>)
    requires units != []
    ensures FromUtf16(units) == FromUtf16(units[..HeadLength(units)]) + FromUtf16(units[HeadLength(units)..])
  {
    var head := units[..HeadLength(units)];
    assert head[0] == units[0] && head[HeadLength(head)..] == [];
  }

  lemma HeadOfParts(a: seq<Unit>, b: seq<Unit>)
    requires a != [] && (b == [] || !High(a[|a| - 1]) || !Low(b[0]))
    ensures HeadLength(a + b) == HeadLength(a)
    ensures (a + b)[..HeadLength(a)] == a[..HeadLength(a)] && (a + b)[HeadLength(a)..] == a[HeadLength(a)..] + b
  {
  }

  /** A string is read part by part, wherever it is cut but between the halves of a pair. */
  lemma {:induction false} ReadInParts(a: seq<Unit>, b: seq<Unit>)
    requires a == [] || b == [] || !High(a[|a| - 1]) || !Low(b[0])
    ensures FromUtf16(a + b) == FromUtf16(a) + FromUtf16(b)
    decreases |a|
  {
    if a == [] {
      assert a + b == b;
    } else {
      var n := HeadLength(a);
      HeadOfParts(a, b);
      HeadRead(a);
      HeadRead(a + b);
      ReadInParts(a[n..], b);
      assert FromUtf16(a[..n]) + (FromUtf16(a[n..]) + FromUtf16(b)) == (FromUtf16(a[..n]) + FromUtf16(a[n..])) + FromUtf16(b);
    }
  }

  /** The parts it comes down to: a pair, a surrogate without its other half, and any other unit. */
  lemma OnePartRead(unit: Unit, next: Unit)
    ensures FromUtf16([unit]) == [if High(unit) || Low(unit) then 0xFFFD as char else unit as char]
    ensures High(unit) && Low(next) ==> FromUtf16([unit, next]) == [Pair(unit, next)]
    ensures High(unit) && Low(next) ==> Pair(unit, next) as int == 0x1_0000 + (unit - 0xD800) * 0x400 + (next - 0xDC00)
  {
    assert [unit][1..] == [] && [unit, next][2..] == [];
  }

  lemma ReadOneMore(c: char, s: string, head: seq<Unit>, rest: seq<Unit>)
    requires EncodeChar(c) == head
    ensures ToUtf16([c] + s) == head + rest <==> ToUtf16(s) == rest
  {
    assert ([c] + s)[0] == c && ([c] + s)[1..] == s;
    SameHeads(EncodeChar(c), ToUtf16(s), head, rest);
  }

  lemma SameHeads(a: seq<Unit>, x: seq<Unit>, b: seq<Unit>, y: seq<Unit>)
    requires a == b
    ensures a + x == b + y <==> x == y
  {
    assert (a + x)[|a|..] == x && (b + y)[|b|..] == y;
  }

  lemma PairedAfterAUnit(units: seq<Unit>)
    requires units != [] && !High(units[0]) && !Low(units[0])
    ensures Paired(units) <==> Paired(units[1..])
  {
    PairedAfter(units, 1);
    assert PairedAt(units, 0);
  }

  lemma PairedAfterAPair(units: seq<Unit>)
    requires |units| > 1 && High(units[0]) && Low(units[1])
    ensures Paired(units) <==> Paired(units[2..])
  {
    PairedAfter(units, 2);
    assert PairedAt(units, 0) && PairedAt(units, 1);
  }

  /** What follows a whole character is paired on its own. */
  lemma PairedAfter(units: seq<Unit>, n: nat)
    requires 0 < n <= |units| && !High(units[n - 1])
    ensures Paired(units[n..]) <==> forall i | n <= i < |units| :: PairedAt(units, i)
  {
    var rest := units[n..];
    forall i | n <= i < |units|
      ensures PairedAt(units, i) <==> PairedAt(rest, i - n)
    {
      assert units[i] == rest[i - n];
    }
    if Paired(rest) {
      forall i | n <= i < |units|
        ensures PairedAt(units, i)
      {
        assert PairedAt(rest, i - n);
      }
    } else {
      var j :| 0 <= j < |rest| && !PairedAt(rest, j);
      assert !PairedAt(units, j + n);
    }
  }

  // ---- UTF-8

  function Utf8Char(c: char): (bytes: seq<Byte>)
    ensures |bytes| > 0
  {
    var v := c as int;
    if v < 0x80 then [v]
    else if v < 0x800 then [0xC0 + v / 64, 0x80 + v % 64]
    else if v < 0x1_0000 then [0xE0 + v / 64 / 64, 0x80 + v / 64 % 64, 0x80 + v % 64]
    else [0xF0 + v / 64 / 64 / 64, 0x80 + v / 64 / 64 % 64, 0x80 + v / 64 % 64, 0x80 + v % 64]
  }

  /** The bytes of a Rust string. */
  function Utf8(s: string): seq<Byte> {
    if s == "" then [] else Utf8Char(s[0]) + Utf8(s[1..])
  }

  /** How many bytes the first one announces, section 3 of RFC 3629; none if it cannot come first. */
  function Announced(lead: Byte): nat {
    if lead < 0x80 then 1
    else if 0xC0 <= lead < 0xE0 then 2
    else if 0xE0 <= lead < 0xF0 then 3
    else if 0xF0 <= lead < 0xF8 then 4
    else 0
  }

  /** The bits of a byte that its mark leaves. */
  function Bits(b: int, mark: int): int {
    b - mark
  }

  predicate Continues(b: Byte) {
    0x80 <= b < 0xC0
  }

  /** Whether the bytes are the UTF-8 form of a character number: the announced bytes, six bits in each that continues, and no shorter form. */
  predicate IsUtf8Of(bytes: seq<Byte>, v: int) {
    && bytes != [] && |bytes| == Announced(bytes[0]) && (forall i | 0 < i < |bytes| :: Continues(bytes[i]))
    && match |bytes|
       case 1 => v == bytes[0]
       case 2 => v == Bits(bytes[0], 0xC0) * 64 + Bits(bytes[1], 0x80) && v >= 0x80
       case 3 => v == (Bits(bytes[0], 0xE0) * 64 + Bits(bytes[1], 0x80)) * 64 + Bits(bytes[2], 0x80) && v >= 0x800
       case _ => v == ((Bits(bytes[0], 0xF0) * 64 + Bits(bytes[1], 0x80)) * 64 + Bits(bytes[2], 0x80)) * 64 + Bits(bytes[3], 0x80) && v >= 0x1_0000
  }

  /** A character's bytes are its UTF-8 form, and nothing else is. */
  lemma CharBytesExactly(c: char, bytes: seq<Byte>)
    ensures Utf8Char(c) == bytes <==> IsUtf8Of(bytes, c as int)
  {
    var v := c as int;
    SixBits(v);
    SixBits(v / 64);
    SixBits(v / 64 / 64);
    if IsUtf8Of(bytes, v) {
      var n := |bytes|;
      if n == 2 {
        SplitSix(v, Bits(bytes[0], 0xC0), Bits(bytes[1], 0x80));
      } else if n == 3 {
        SplitSix(v, Bits(bytes[0], 0xE0) * 64 + Bits(bytes[1], 0x80), Bits(bytes[2], 0x80));
        SplitSix(v / 64, Bits(bytes[0], 0xE0), Bits(bytes[1], 0x80));
      } else if n == 4 {
        SplitSix(v, (Bits(bytes[0], 0xF0) * 64 + Bits(bytes[1], 0x80)) * 64 + Bits(bytes[2], 0x80), Bits(bytes[3], 0x80));
        SplitSix(v / 64, Bits(bytes[0], 0xF0) * 64 + Bits(bytes[1], 0x80), Bits(bytes[2], 0x80));
        SplitSix(v / 64 / 64, Bits(bytes[0], 0xF0), Bits(bytes[1], 0x80));
      }
      assert |Utf8Char(c)| == n;
      assert forall i | 0 <= i < n :: Utf8Char(c)[i] == bytes[i];
    }
  }

  lemma SixBits(v: nat)
    ensures v == v / 64 * 64 + v % 64 && 0 <= v % 64 < 64
  {
  }

  lemma SplitSix(v: nat, high: int, low: int)
    requires v == high * 64 + low && 0 <= low < 64
    ensures v / 64 == high && v % 64 == low
  {
  }

  /** Whether bytes are a string in UTF-8, read a character at a time. */
  predicate IsUtf8(bytes: seq<Byte>, s: string)
    decreases |s|
  {
    if s == "" then bytes == []
    else
      && bytes != [] && 0 < Announced(bytes[0]) <= |bytes|
      && IsUtf8Of(bytes[..Announced(bytes[0])], s[0] as int)
      && IsUtf8(bytes[Announced(bytes[0])..], s[1..])
  }

  /** The bytes of a string are its UTF-8 form, and nothing else is. */
  lemma {:induction false} StringBytesExactly(s: string, bytes: seq<Byte>)
    ensures Utf8(s) == bytes <==> IsUtf8(bytes, s)
    decreases |s|
  {
    if s != "" {
      var head, rest := Utf8Char(s[0]), Utf8(s[1..]);
      CharBytesExactly(s[0], head);
      StringBytesExactly(s[1..], rest);
      FirstCharacter(s, head, rest);
      if IsUtf8(bytes, s) {
        var n := Announced(bytes[0]);
        CharBytesExactly(s[0], bytes[..n]);
        StringBytesExactly(s[1..], bytes[n..]);
        assert bytes == bytes[..n] + bytes[n..];
      }
    }
  }

  lemma FirstCharacter(s: string, head: seq<Byte>, rest: seq<Byte>)
    requires s != "" && IsUtf8Of(head, s[0] as int) && IsUtf8(rest, s[1..])
    ensures IsUtf8(head + rest, s)
  {
    var bytes := head + rest;
    assert bytes[0] == head[0] && bytes[..|head|] == head && bytes[|head|..] == rest;
  }

  /** One string of bytes is the UTF-8 form of one string. */
  lemma {:induction false} Utf8Injective(s: string, t: string)
    requires Utf8(s) == Utf8(t)
    ensures s == t
    decreases |s|
  {
    StringBytesExactly(s, Utf8(s));
    StringBytesExactly(t, Utf8(s));
    if s != "" && t != "" {
      var n := Announced(Utf8(s)[0]);
      CharBytesExactly(s[0], Utf8(s)[..n]);
      OneCharacter(Utf8(s)[..n], s[0] as int, t[0] as int);
      StringBytesExactly(s[1..], Utf8(s)[n..]);
      StringBytesExactly(t[1..], Utf8(s)[n..]);
      Utf8Injective(s[1..], t[1..]);
      assert s == [s[0]] + s[1..] && t == [t[0]] + t[1..];
    }
  }

  lemma OneCharacter(bytes: seq<Byte>, v: int, w: int)
    requires IsUtf8Of(bytes, v) && IsUtf8Of(bytes, w)
    ensures v == w
  {
  }
}
