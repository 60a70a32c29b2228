/**
  The operators of the intermediate representation and the loads from guest
  memory, in terms of integers, digits and single bytes.
*/
module Operators {
  import opened Words
  import opened IR
  import opened Machine
  import opened Arithmetic

  /*** Quotients ***/

  lemma QuotientIs(x: nat, d: nat, q: nat, r: nat)
    requires d > 0 && x == q * d + r && r < d
    ensures x / d == q && x % d == r
  {
    var q', r' := x / d, x % d;
    assert x == q' * d + r';
    assert (q' - q) * d == r - r';
    MultipleBetween(q' - q, d, r - r');
    NoMultiple(q' - q, d);
  }

  lemma NoMultiple(k: int, d: nat)
    requires d > 0 && k * d == 0
    ensures k == 0
  {
    if k > 0 {
      MultiplyAtLeast(k, d);
    } else if k < 0 {
      MultiplyAtLeast(-k, d);
    }
  }

  lemma PositiveProduct(a: nat, b: nat)
    requires a > 0 && b > 0
    ensures a * b > 0
  {
    MultiplyAtLeast(a, b);
  }

  lemma Regroup(s: nat, b: nat, t: nat, a: nat, r: nat)
    ensures (s * b + t) * a + r == s * (a * b) + (t * a + r)
  {
    assert (s * b + t) * a == (s * b) * a + t * a;
    assert (s * b) * a == s * (a * b);
  }

  lemma BelowProduct(t: nat, b: nat, r: nat, a: nat)
    requires t < b && r < a
    ensures t * a + r < a * b
  {
    var c := b - 1 - t;
    assert c * a >= 0;
    assert b * a == c * a + t * a + a by {
      assert (c + t + 1) * a == c * a + t * a + a;
    }
  }

  lemma QuotientFrom(x: nat, a: nat, b: nat, q: nat, r: nat, s: nat, t: nat)
    requires a > 0 && b > 0 && r < a && t < b && q == s * b + t && x == q * a + r
    ensures a * b > 0 && x / (a * b) == s
  {
    PositiveProduct(a, b);
    Regroup(s, b, t, a, r);
    BelowProduct(t, b, r, a);
    QuotientIs(x, a * b, s, t * a + r);
  }

  lemma QuotientOfQuotient(x: nat, a: nat, b: nat)
    requires a > 0 && b > 0
    ensures a * b > 0 && x / (a * b) == x / a / b
  {
    var q, r := x / a, x % a;
    QuotientFrom(x, a, b, q, r, q / b, q % b);
  }

  /** Digit `k` is the remainder modulo 2 of the quotient by 2^k. */
  lemma {:induction false} BitIsQuotient(x: nat, k: nat)
    ensures Bit(x, k) == x / Pow2(k) % 2
  {
    if k > 0 {
      BitIsQuotient(x / 2, k - 1);
      QuotientOfQuotient(x, 2, Pow2(k - 1));
    }
  }

  lemma {:induction false} ShrIsQuotient(x: Word, n: nat)
    ensures Shr(x, n) == x / Pow2(n)
    decreases n
  {
    if n > 0 {
      ShrIsQuotient(x / 2, n - 1);
      QuotientOfQuotient(x, 2, Pow2(n - 1));
    }
  }

  /*** Binary operations ***/

  /** Digit `k` of the result of a bitwise operation on digits `a` and `b`. */
  function DigitOf(kind: BinaryKind, a: nat, b: nat): int
    requires kind.OpAnd? || kind.OpOr? || kind.OpXor? || kind.OpNand?
  {
    match kind
    case OpAnd => a * b
    case OpOr => a + b - a * b
    case OpXor => (a + b) % 2
    case OpNand => a * (1 - b)
  }

  /** What each binary operation computes. */
  lemma ComputeMeans(kind: BinaryKind, x: Word, y: Word, k: nat)
    requires ShiftDefined(kind, y) && k < 64
    ensures var r := Compute(kind, x, y);
            match kind
            case OpAdd => r == (x + y) % M64
            case OpSub => r == (x - y) % M64
            case OpShl => r == (x * Pow2(y)) % M64
            case OpShr => r == x / Pow2(y)
            case OpBitExtract => r == x / Pow2(y) % 2
            case _ => Bit(r, k) == DigitOf(kind, Bit(x, k), Bit(y, k))
  {
    hide Shl, Shr, Bitwise64, Pow2, Bit, DigitOf;
    match kind
    case OpAdd =>
    case OpSub =>
    case OpShl => ShlIsProduct(x, y);
    case OpShr => ShrIsQuotient(x, y);
    case OpBitExtract =>
      ExtractedBit(x, y);
      BitIsQuotient(x, y);
    case _ => BitwiseMeans(x, y, k);
  }

  lemma BitwiseMeans(x: Word, y: Word, k: nat)
    ensures Bit(And(x, y), k) == DigitOf(OpAnd, Bit(x, k), Bit(y, k))
    ensures Bit(Or(x, y), k) == DigitOf(OpOr, Bit(x, k), Bit(y, k))
    ensures Bit(Xor(x, y), k) == DigitOf(OpXor, Bit(x, k), Bit(y, k))
    ensures Bit(AndNot(x, y), k) == DigitOf(OpNand, Bit(x, k), Bit(y, k))
  {
    hide Bitwise;
    BitOfBitwise(AndGate, x, y, k);
    BitOfBitwise(OrGate, x, y, k);
    BitOfBitwise(XorGate, x, y, k);
    BitOfBitwise(AndNotGate, x, y, k);
  }

  /*** Loads ***/

  lemma PowerUnfolds(k: nat)
    ensures Power256(k) == if k == 0 then 1 else 256 * Power256(k - 1)
  {
  }

  lemma LoadUnfolds(memory: Word -> byte, address: Word, n: nat)
    ensures Load(memory, address, n) ==
            if n == 0 then 0 else memory(address) + 256 * Load(memory, Add(address, 1), n - 1)
  {
  }

  lemma NextAddress(address: Word, k: nat)
    requires k > 0
    ensures (Add(address, 1) + (k - 1)) % M64 == (address + k) % M64
  {
  }

  /** Byte `k` of a load is the byte of memory `k` behind the address. */
  lemma {:induction false} LoadedByte(memory: Word -> byte, address: Word, n: nat, k: nat)
    requires k < n
    ensures Load(memory, address, n) / Power256(k) % 256 == memory((address + k) % M64)
    decreases n
  {
    hide Load, Power256, Add;
    var whole, rest := Load(memory, address, n), Load(memory, Add(address, 1), n - 1);
    LoadUnfolds(memory, address, n);
    PowerUnfolds(k);
    QuotientIs(whole, 256, rest, memory(address));
    if k > 0 {
      LoadedByte(memory, Add(address, 1), n - 1, k - 1);
      QuotientOfQuotient(whole, 256, Power256(k - 1));
      NextAddress(address, k);
    }
  }

  /** The eight bytes from `address` on are those of `w`, the lowest first. */
  ghost predicate HoldsWord(memory: Word -> byte, address: Word, w: Word) {
    forall k :: 0 <= k < 8 ==> memory((address + k) % M64) == w / Power256(k) % 256
  }

  /** A load of 8 bytes yields the one word that lies there; one of 4 bytes its low half. */
  lemma LoadedWord(memory: Word -> byte, address: Word, w: Word)
    ensures HoldsWord(memory, address, w) <==> LoadWord(memory, address, 8) == w
  {
    hide Load;
    var v := LoadWord(memory, address, 8);
    forall k: nat | k < 8
      ensures memory((address + k) % M64) == v / Power256(k) % 256
    {
      LoadedByte(memory, address, 8, k);
    }
    if HoldsWord(memory, address, w) {
      Widths();
      SameBytes(v, w, 8);
    }
  }

  /** Numbers below 256^n with the same first n bytes are equal. */
  lemma {:induction false} SameBytes(x: nat, y: nat, n: nat)
    requires x < Power256(n) && y < Power256(n)
    requires forall k :: 0 <= k < n ==> x / Power256(k) % 256 == y / Power256(k) % 256
    ensures x == y
    decreases n
  {
    if n > 0 {
      forall k: nat | k < n - 1
        ensures x / 256 / Power256(k) % 256 == y / 256 / Power256(k) % 256
      {
        QuotientOfQuotient(x, 256, Power256(k));
        QuotientOfQuotient(y, 256, Power256(k));
        assert Power256(k + 1) == 256 * Power256(k);
        assert x / Power256(k + 1) % 256 == y / Power256(k + 1) % 256;
      }
      SameBytes(x / 256, y / 256, n - 1);
      assert x / Power256(0) % 256 == y / Power256(0) % 256;
    }
  }

  lemma LoadIsPrefix(memory: Word -> byte, address: Word)
    ensures LoadWord(memory, address, 4) == LoadWord(memory, address, 8) % M32
  {
    LoadSplits(memory, address, 4, 4);
    Widths();
    LoadBound(memory, address, 4);
    Pow2ThirtyTwo();
    var high := Load(memory, (address + 4) % M64, 4);
    QuotientIs(Load(memory, address, 8), M32, high, Load(memory, address, 4));
  }

  lemma {:induction false} LoadSplits(memory: Word -> byte, address: Word, m: nat, n: nat)
    ensures Load(memory, address, m + n)
         == Load(memory, address, m) + Power256(m) * Load(memory, (address + m) % M64, n)
    decreases m
  {
    hide Load, Power256, Add;
    var high := Load(memory, (address + m) % M64, n);
    LoadUnfolds(memory, address, m + n);
    LoadUnfolds(memory, address, m);
    PowerUnfolds(m);
    if m > 0 {
      LoadSplits(memory, Add(address, 1), m - 1, n);
      NextAddress(address, m);
      Distribute(Load(memory, Add(address, 1), m - 1), Power256(m - 1), high);
    }
  }

  lemma Distribute(low: nat, power: nat, high: nat)
    ensures 256 * (low + power * high) == 256 * low + (256 * power) * high
  {
    assert 256 * (power * high) == (256 * power) * high;
  }
}
