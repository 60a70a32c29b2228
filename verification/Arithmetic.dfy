/** Machine-word arithmetic in terms of sums and products of integers. */
module Arithmetic {
  import opened Words
  import opened Flags

  lemma AddIsSum(x: Word, y: Word)
    ensures Add(x, y) == (x + y) % M64
  {
  }

  lemma NarrowAdd(x: Word, y: Word)
    ensures Truncate32(Add(Truncate32(x), Truncate32(y))) == (x + y) % M32
  {
    assert Truncate32(x) + Truncate32(y) < M64;
    var q, r := x / M32, y / M32;
    assert x == q * M32 + Truncate32(x) && y == r * M32 + Truncate32(y);
    Remainder(Truncate32(x) + Truncate32(y), M32, q + r);
    assert x + y == (Truncate32(x) + Truncate32(y)) + (q + r) * M32;
  }

  lemma NarrowXor(x: Word, y: Word)
    ensures Truncate32(Xor(Truncate32(x), Truncate32(y))) == Xor(x % M32, y % M32)
  {
    Pow2ThirtyTwo();
    BitwiseBound(XorGate, x % M32, y % M32, 32);
  }

  /** Adding multiples of the modulus does not change the remainder. */
  lemma Remainder(a: int, m: int, k: int)
    requires m > 0
    ensures (a + k * m) % m == a % m
  {
    var q, r := a / m, a % m;
    var q', r' := (a + k * m) / m, (a + k * m) % m;
    assert a == q * m + r && a + k * m == q' * m + r';
    assert (q' - q - k) * m == r - r';
    MultipleBetween(q' - q - k, m, r - r');
  }

  lemma MultipleBetween(k: int, m: int, d: int)
    requires m > 0 && k * m == d && -m < d < m
    ensures d == 0
  {
    if k >= 1 {
      MultiplyAtLeast(k, m);
    } else if k <= -1 {
      MultiplyAtLeast(-k, m);
    }
  }

  lemma MultiplyAtLeast(k: int, m: int)
    requires k >= 1 && m > 0
    ensures k * m >= m
  {
    assert (k - 1) * m >= 0;
  }

  lemma DoubleTimes(x: Word, p: nat)
    ensures (Double(x) * p) % M64 == (x * (2 * p)) % M64
  {
    var d, carry := Double(x), if 2 * x < M64 then 0 else 1;
    assert 2 * x == d + carry * M64;
    assert x * (2 * p) == (2 * x) * p;
    assert (d + carry * M64) * p == d * p + (carry * p) * M64;
    Remainder(d * p, M64, carry * p);
  }

  /** A left shift is a product with a power of two. */
  lemma {:induction false} ShlIsProduct(x: Word, n: nat)
    ensures Shl(x, n) == (x * Pow2(n)) % M64
    decreases n
  {
    if n == 0 {
      assert x * Pow2(0) == x;
    } else {
      ShlIsProduct(Double(x), n - 1);
      DoubleTimes(x, Pow2(n - 1));
    }
  }

  lemma NarrowShl(x: Word, n: nat)
    requires n < 32
    ensures Truncate32(Shl(Truncate32(x), n)) == (x * Pow2(n)) % M32
  {
    hide Pow2, Shl;
    ShlIsProduct(Truncate32(x), n);
    LowHalf(Truncate32(x) * Pow2(n));
    TruncatedFactor(x, Pow2(n));
  }

  /** The low 32 bits survive a reduction modulo 2^64. */
  lemma LowHalf(z: nat)
    ensures (z % M64) % M32 == z % M32
  {
    var q := z / M64;
    assert z % M64 == z + (-q * M32) * M32;
    Remainder(z, M32, -q * M32);
  }

  lemma TruncatedFactor(x: Word, p: nat)
    ensures (Truncate32(x) * p) % M32 == (x * p) % M32
  {
    var y, k := Truncate32(x), x / M32;
    assert x == y + k * M32;
    assert x * p == y * p + (k * p) * M32 by {
      assert (y + k * M32) * p == y * p + (k * M32) * p;
      assert (k * M32) * p == (k * p) * M32;
    }
    Remainder(y * p, M32, k * p);
  }

  /** Setting bit 0 replaces the last digit. */
  lemma CarryIsLastDigit(flags: Word, w: Word)
    ensures FlagSet(flags, 0, w) == flags - flags % 2 + w % 2
  {
    hide FlagSet;
    var x, y := FlagSet(flags, 0, w), flags - flags % 2 + w % 2;
    forall k | 0 <= k < 64
      ensures Bit(x, k) == Bit(y, k)
    {
      FlagSetBits(flags, 0, w, k);
      if k > 0 {
        assert y / 2 == flags / 2;
      }
    }
    SameWords(x, y);
  }

  lemma {:induction false} ExtractedBit(x: Word, k: nat)
    requires k < 64
    ensures And(Shr(x, k), 1) == Bit(x, k)
  {
    AndWithOne(Shr(x, k));
    BitOfShr(x, k, 0);
  }
}
