/** Powers of two and the length of a binary numeral, over unbounded integers. */
module Powers {

  function Pow2(n: nat): (r: int)
    ensures r >= 1
  {
    if n == 0 then 1 else 2 * Pow2(n - 1)
  }

  /** The number of binary digits of `m`, with none for zero. */
  function BitLength(m: nat): nat {
    if m == 0 then 0 else 1 + BitLength(m / 2)
  }

  function Abs(i: int): nat {
    if i < 0 then -i else i
  }

  lemma {:induction false} Pow2Sum(a: nat, b: nat)
    ensures Pow2(a + b) == Pow2(a) * Pow2(b)
  {
    if a == 0 {
    } else {
      Pow2Sum(a - 1, b);
      assert Pow2(a + b) == 2 * Pow2(a - 1 + b);
    }
  }

  lemma {:induction false} Pow2Doubles(a: nat, b: nat)
    requires a < b
    ensures 2 * Pow2(a) <= Pow2(b)
  {
    if a + 1 < b {
      Pow2Doubles(a, b - 1);
    }
  }

  lemma Pow2Monotone(a: nat, b: nat)
    requires a <= b
    ensures Pow2(a) <= Pow2(b)
  {
    if a < b {
      Pow2Doubles(a, b);
    }
  }

  lemma {:induction false} BitLengthBounds(m: nat)
    requires m > 0
    ensures BitLength(m) >= 1
    ensures Pow2(BitLength(m) - 1) <= m < Pow2(BitLength(m))
  {
    if m == 1 {
      assert BitLength(1) == 1 + BitLength(0);
    } else {
      BitLengthBounds(m / 2);
    }
  }

  lemma BitLengthIs(m: nat, k: nat)
    requires k >= 1 && Pow2(k - 1) <= m < Pow2(k)
    ensures BitLength(m) == k
  {
    BitLengthBounds(m);
    if BitLength(m) < k {
      Pow2Monotone(BitLength(m), k - 1);
    } else if BitLength(m) > k {
      Pow2Monotone(k, BitLength(m) - 1);
    }
  }

  lemma BitLengthShift(m: nat, k: nat)
    requires m > 0
    ensures m * Pow2(k) > 0
    ensures BitLength(m * Pow2(k)) == BitLength(m) + k
  {
    var b := BitLength(m);
    BitLengthBounds(m);
    Pow2Sum(b - 1, k);
    Pow2Sum(b, k);
    ScaleLess(Pow2(b - 1), m, Pow2(k));
    ScaleStrict(m, Pow2(b), Pow2(k));
    BitLengthIs(m * Pow2(k), b + k);
  }

  /** A numeral has at most `p` digits exactly when it is below 2^p. */
  lemma BitLengthAtMost(m: nat, p: nat)
    ensures BitLength(m) <= p <==> m < Pow2(p)
  {
    if m > 0 {
      BitLengthBounds(m);
      if BitLength(m) <= p {
        Pow2Monotone(BitLength(m), p);
      } else {
        Pow2Monotone(p, BitLength(m) - 1);
      }
    }
  }

  lemma ScaleLess(a: int, b: int, s: int)
    requires a <= b && s >= 0
    ensures a * s <= b * s
  {
  }

  lemma ScaleStrict(a: int, b: int, s: int)
    requires a < b && s >= 1
    ensures a * s < b * s
  {
  }
}
