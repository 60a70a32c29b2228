/**
  Sixty-four bit machine words.

  A `uint64_t` of the program is an integer below 2^64, with the wrap-around of
  addition and subtraction written out. The bitwise operators are defined by
  recursion over the binary digits, so that every law about them is an
  induction over digits and no conversion to bit-vectors is ever needed.
*/
module Words {

  const M64: int := 0x1_0000_0000_0000_0000
  const M32: int := 0x1_0000_0000

  type Word = x: int | 0 <= x < 0x1_0000_0000_0000_0000
  type byte = x: int | 0 <= x < 256

  function Add(x: Word, y: Word): Word {
    if x + y < M64 then x + y else x + y - M64
  }

  function Sub(x: Word, y: Word): Word {
    if x >= y then x - y else x - y + M64
  }

  lemma AddAssoc(x: Word, y: Word, z: Word)
    ensures Add(Add(x, y), z) == Add(x, Add(y, z))
  {
  }

  /** Sign extension of a byte (`*(int8_t*)` read into a `uint64_t`). */
  function SignExtend8(b: byte): Word {
    if b < 128 then b else b + M64 - 256
  }

  /** The little-endian 16-bit read `*(int16_t*)`, sign-extended. */
  function SignExtend16(b0: byte, b1: byte): Word {
    var u := b0 + 256 * b1;
    if u < 0x8000 then u else u + M64 - 0x1_0000
  }

  /** The little-endian 32-bit read `*(int32_t*)`, sign-extended. */
  function SignExtend32(b0: byte, b1: byte, b2: byte, b3: byte): Word {
    var u := b0 + 256 * b1 + 0x1_0000 * b2 + 0x100_0000 * b3;
    if u < 0x8000_0000 then u else u + M64 - M32
  }

  /*** Digits ***/

  function Pow2(n: nat): (p: nat)
    ensures p >= 1
  {
    if n == 0 then 1 else 2 * Pow2(n - 1)
  }

  lemma Pow2Sixteen()
    ensures Pow2(16) == 0x1_0000
  {
    assert Pow2(4) == 16;
    assert Pow2(8) == 256;
    assert Pow2(12) == 4096;
  }

  lemma Pow2ThirtyTwo()
    ensures Pow2(32) == M32
  {
    Pow2Sixteen();
    assert Pow2(20) == 0x10_0000;
    assert Pow2(24) == 0x100_0000;
    assert Pow2(28) == 0x1000_0000;
  }

  lemma Pow2SixtyFour()
    ensures Pow2(64) == M64
  {
    Pow2ThirtyTwo();
    assert Pow2(36) == 0x10_0000_0000;
    assert Pow2(40) == 0x100_0000_0000;
    assert Pow2(44) == 0x1000_0000_0000;
    assert Pow2(48) == 0x1_0000_0000_0000;
    assert Pow2(52) == 0x10_0000_0000_0000;
    assert Pow2(56) == 0x100_0000_0000_0000;
    assert Pow2(60) == 0x1000_0000_0000_0000;
  }

  function Power256(n: nat): (p: nat)
    ensures p > 0
  {
    if n == 0 then 1 else 256 * Power256(n - 1)
  }

  lemma Widths()
    ensures Power256(1) == 256 && Power256(4) == M32 && Power256(8) == M64
  {
    assert Power256(2) == 0x1_0000;
    assert Power256(6) == 0x1_0000_0000_0000;
  }

  /** Digit `k` of `x`. */
  function Bit(x: nat, k: nat): (b: nat)
    ensures b <= 1
  {
    if k == 0 then x % 2 else Bit(x / 2, k - 1)
  }

  function Digit(b: bool): nat { if b then 1 else 0 }

  datatype Gate = AndGate | OrGate | XorGate | AndNotGate

  /** One digit of a bitwise operator. */
  function Through(g: Gate, a: bool, b: bool): bool {
    match g
    case AndGate => a && b
    case OrGate => a || b
    case XorGate => a != b
    case AndNotGate => a && !b
  }

  function Bitwise(g: Gate, x: nat, y: nat): (r: nat)
    decreases x + y
  {
    if x == 0 && y == 0 then 0
    else 2 * Bitwise(g, x / 2, y / 2) + Digit(Through(g, x % 2 == 1, y % 2 == 1))
  }

  lemma {:induction false} BitwiseBound(g: Gate, x: nat, y: nat, n: nat)
    requires x < Pow2(n) && y < Pow2(n)
    ensures Bitwise(g, x, y) < Pow2(n)
  {
    if n > 0 {
      BitwiseBound(g, x / 2, y / 2, n - 1);
    }
  }

  /** A bitwise operator on machine words. */
  function Bitwise64(g: Gate, x: Word, y: Word): (r: Word) {
    Pow2SixtyFour();
    BitwiseBound(g, x, y, 64);
    Bitwise(g, x, y)
  }

  function And(x: Word, y: Word): Word { Bitwise64(AndGate, x, y) }
  function Or(x: Word, y: Word): Word { Bitwise64(OrGate, x, y) }
  function Xor(x: Word, y: Word): Word { Bitwise64(XorGate, x, y) }
  /** `x & ~y`, which the program calls NAND. */
  function AndNot(x: Word, y: Word): Word { Bitwise64(AndNotGate, x, y) }

  function Double(x: Word): Word {
    if 2 * x < M64 then 2 * x else 2 * x - M64
  }

  function Shl(x: Word, n: nat): Word
    decreases n
  {
    if n == 0 then x else Shl(Double(x), n - 1)
  }

  function Shr(x: Word, n: nat): Word
    decreases n
  {
    if n == 0 then x else Shr(x / 2, n - 1)
  }

  /** The low `n` digits of `x`. */
  function Low(x: nat, n: nat): nat
    decreases n
  {
    if n == 0 then 0 else 2 * Low(x / 2, n - 1) + x % 2
  }

  function Truncate32(x: Word): Word { x % M32 }
  function Truncate16(x: Word): Word { x % 0x1_0000 }

  /*** Laws of the digits ***/

  lemma {:induction false} BitOfZero(k: nat)
    ensures Bit(0, k) == 0
  {
    if k > 0 {
      BitOfZero(k - 1);
    }
  }

  /** Digit `k` of a bitwise operator is the gate applied to digits `k`. */
  lemma {:induction false} BitOfBitwise(g: Gate, x: nat, y: nat, k: nat)
    ensures Bit(Bitwise(g, x, y), k) == Digit(Through(g, Bit(x, k) == 1, Bit(y, k) == 1))
  {
    if x == 0 && y == 0 {
      BitOfZero(k);
    } else {
      var r := Bitwise(g, x, y);
      assert r / 2 == Bitwise(g, x / 2, y / 2);
      if k > 0 {
        BitOfBitwise(g, x / 2, y / 2, k - 1);
      }
    }
  }

  lemma {:induction false} BitOfDouble(x: Word, k: nat)
    requires k < 64
    ensures Bit(Double(x), k) == if k == 0 then 0 else Bit(x, k - 1)
  {
    if 2 * x >= M64 && k > 0 {
      assert Double(x) / 2 == x - M64 / 2;
      Pow2SixtyFour();
      BitBelow(x, 63, k - 1);
    }
  }

  /** Dropping digit `n` leaves the digits below it. */
  lemma {:induction false} BitBelow(x: nat, n: nat, k: nat)
    requires k < n && x >= Pow2(n)
    ensures Bit(x - Pow2(n), k) == Bit(x, k)
  {
    assert Pow2(n) == 2 * Pow2(n - 1);
    if k > 0 {
      assert (x - Pow2(n)) / 2 == x / 2 - Pow2(n - 1);
      BitBelow(x / 2, n - 1, k - 1);
    }
  }

  lemma {:induction false} BitOfShl(x: Word, n: nat, k: nat)
    requires k < 64
    ensures Bit(Shl(x, n), k) == if k < n then 0 else Bit(x, k - n)
    decreases n
  {
    if n > 0 {
      BitOfShl(Double(x), n - 1, k);
      if k >= n - 1 {
        BitOfDouble(x, k - (n - 1));
      }
    }
  }

  lemma {:induction false} BitOfShr(x: Word, n: nat, k: nat)
    ensures Bit(Shr(x, n), k) == Bit(x, k + n)
    decreases n
  {
    if n > 0 {
      BitOfShr(x / 2, n - 1, k);
    }
  }

  /** Numbers below 2^n with the same first n digits are equal. */
  lemma {:induction false} SameBits(x: nat, y: nat, n: nat)
    requires x < Pow2(n) && y < Pow2(n)
    requires forall k :: 0 <= k < n ==> Bit(x, k) == Bit(y, k)
    ensures x == y
  {
    if n > 0 {
      assert Bit(x, 0) == Bit(y, 0);
      forall k | 0 <= k < n - 1
        ensures Bit(x / 2, k) == Bit(y / 2, k)
      {
        assert Bit(x, k + 1) == Bit(y, k + 1);
      }
      SameBits(x / 2, y / 2, n - 1);
    }
  }

  lemma SameWords(x: Word, y: Word)
    requires forall k :: 0 <= k < 64 ==> Bit(x, k) == Bit(y, k)
    ensures x == y
  {
    Pow2SixtyFour();
    SameBits(x, y, 64);
  }

  /*** Exclusive or ***/

  /** Digit by digit, the sum of two numbers without carries: `n` digits of it. */
  function DigitSum(x: nat, y: nat, n: nat): (r: nat)
    ensures r < Pow2(n)
    decreases n
  {
    if n == 0 then 0 else (x % 2 + y % 2) % 2 + 2 * DigitSum(x / 2, y / 2, n - 1)
  }

  /** What the exclusive or of two words is. */
  function ExclusiveOr(x: Word, y: Word): Word {
    Pow2SixtyFour();
    DigitSum(x, y, 64)
  }

  lemma {:induction false} BitwiseIsDigitSum(x: nat, y: nat, n: nat)
    requires x < Pow2(n) && y < Pow2(n)
    ensures Bitwise(XorGate, x, y) == DigitSum(x, y, n)
  {
    if n > 0 {
      BitwiseIsDigitSum(x / 2, y / 2, n - 1);
    }
  }

  lemma XorIsExclusiveOr(x: Word, y: Word)
    ensures Xor(x, y) == ExclusiveOr(x, y)
  {
    Pow2SixtyFour();
    BitwiseIsDigitSum(x, y, 64);
  }

  lemma {:induction false} DigitSumWithItself(x: nat, n: nat)
    ensures DigitSum(x, x, n) == 0
    decreases n
  {
    if n > 0 {
      DigitSumWithItself(x / 2, n - 1);
    }
  }

  /** Every digit of the exclusive or is the sum of the two digits modulo 2; a word with itself gives 0. */
  lemma XorDigits(x: Word, y: Word, k: nat)
    ensures Bit(Xor(x, y), k) == (Bit(x, k) + Bit(y, k)) % 2
    ensures Xor(x, x) == 0
  {
    BitOfBitwise(XorGate, x, y, k);
    XorIsExclusiveOr(x, x);
    DigitSumWithItself(x, 64);
  }

  /** Masking with n ones keeps the low n digits. */
  lemma {:induction false} AndWithOnes(x: nat, n: nat)
    ensures Bitwise(AndGate, x, Pow2(n) - 1) == Low(x, n)
  {
    if n == 0 {
      AndWithZero(x);
    } else {
      var m := Pow2(n) - 1;
      assert m / 2 == Pow2(n - 1) - 1 && m % 2 == 1;
      AndWithOnes(x / 2, n - 1);
    }
  }

  lemma {:induction false} AndWithZero(x: nat)
    ensures Bitwise(AndGate, x, 0) == 0
  {
    if x > 0 {
      AndWithZero(x / 2);
    }
  }

  /** The low digits are the remainder, and the digits above them the quotient. */
  lemma {:induction false} LowSplits(x: nat, n: nat) returns (quotient: nat)
    ensures x == quotient * Pow2(n) + Low(x, n)
    ensures Low(x, n) < Pow2(n)
  {
    if n == 0 {
      quotient := x;
    } else {
      quotient := LowSplits(x / 2, n - 1);
      assert quotient * Pow2(n) == 2 * (quotient * Pow2(n - 1));
    }
  }

  lemma AndWithThirtyOne(x: Word)
    ensures And(x, 31) == x % 32
  {
    assert Pow2(5) == 32;
    AndWithOnes(x, 5);
    var quotient := LowSplits(x, 5);
  }

  lemma AndWithOne(x: Word)
    ensures And(x, 1) == x % 2
  {
    AndWithOnes(x, 1);
    assert Pow2(1) == 2;
    assert Low(x, 1) == x % 2;
  }
}
