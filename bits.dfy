/**
 * Bitwise exclusive or on unbounded naturals, least significant bit first,
 * with the algebra the hash proofs need.
 */
module Bits {

  function Pow2(n: nat): (r: nat)
    ensures r > 0
  {
    if n == 0 then 1 else 2 * Pow2(n - 1)
  }

  /** The bitwise exclusive or of `a` and `b`. */
  function Xor(a: nat, b: nat): nat
    decreases a + b
  {
    if a == 0 && b == 0 then 0 else 2 * Xor(a / 2, b / 2) + (a + b) % 2
  }

  lemma HalveTwice(x: nat, r: nat)
    requires r < 2
    ensures (2 * x + r) % 2 == r && (2 * x + r) / 2 == x
  {
  }

  /** The lowest bit of the xor is the xor of the lowest bits; the rest is the xor of the rest. */
  lemma XorUnfold(a: nat, b: nat)
    ensures Xor(a, b) % 2 == (a + b) % 2
    ensures Xor(a, b) / 2 == Xor(a / 2, b / 2)
  {
    HalveTwice(Xor(a / 2, b / 2), (a + b) % 2);
  }

  lemma {:induction false} XorZero(a: nat)
    ensures Xor(a, 0) == a
    decreases a
  {
    if a != 0 {
      XorZero(a / 2);
    }
  }

  lemma {:induction false} XorCommutes(a: nat, b: nat)
    ensures Xor(a, b) == Xor(b, a)
    decreases a + b
  {
    if a != 0 || b != 0 {
      XorCommutes(a / 2, b / 2);
    }
  }

  /** Xor with the same value twice gives back the original. */
  lemma {:induction false} XorCancel(a: nat, b: nat)
    ensures Xor(Xor(a, b), b) == a
    decreases a + b
  {
    if a != 0 || b != 0 {
      var x := Xor(a, b);
      XorUnfold(a, b);
      XorUnfold(x, b);
      XorCancel(a / 2, b / 2);
      ParityCancel(x, a, b);
      SameBits(Xor(x, b), a);
    }
  }

  /** Two naturals with the same lowest bit and the same higher bits are equal. */
  lemma SameBits(y: nat, a: nat)
    requires y % 2 == a % 2 && y / 2 == a / 2
    ensures y == a
  {
  }

  lemma ParityCancel(x: nat, a: nat, b: nat)
    requires x % 2 == (a + b) % 2
    ensures (x + b) % 2 == a % 2
  {
  }

  /** For a fixed left operand, xor is one-to-one in the right operand. */
  lemma XorInjective(a: nat, b1: nat, b2: nat)
    ensures Xor(a, b1) == Xor(a, b2) ==> b1 == b2
  {
    XorCommutes(a, b1);
    XorCommutes(a, b2);
    XorCancel(b1, a);
    XorCancel(b2, a);
  }

  /** Xor never sets a bit at or above the width of both operands. */
  lemma {:induction false} XorBound(a: nat, b: nat, n: nat)
    requires a < Pow2(n) && b < Pow2(n)
    ensures Xor(a, b) < Pow2(n)
    decreases n
  {
    if n == 0 {
      assert a == 0 && b == 0;
    } else {
      XorBound(a / 2, b / 2, n - 1);
    }
  }

  lemma Pow2Values()
    ensures Pow2(16) == 0x1_0000
    ensures Pow2(32) == 0x1_0000_0000
  {
    assert Pow2(2) == 4;
    assert Pow2(4) == 16;
    assert Pow2(6) == 64;
    assert Pow2(8) == 256;
    assert Pow2(10) == 1024;
    assert Pow2(12) == 4096;
    assert Pow2(14) == 16384;
    assert Pow2(16) == 0x1_0000;
    assert Pow2(18) == 0x4_0000;
    assert Pow2(20) == 0x10_0000;
    assert Pow2(22) == 0x40_0000;
    assert Pow2(24) == 0x100_0000;
    assert Pow2(26) == 0x400_0000;
    assert Pow2(28) == 0x1000_0000;
    assert Pow2(30) == 0x4000_0000;
  }

  /** What xor-ing the lowest bit of `b` into `a` adds to `a`. */
  function FlipLow(a: nat, b: nat): int
  {
    if b % 2 == 0 then 0 else if a % 2 == 0 then 1 else -1
  }

  /**
   * `a` with each of its low six bits flipped where `b` has a one: a closed
   * form of the exclusive or with an operand below 64 (digits and '-') that a
   * solver evaluates on numerals without unfolding Xor.
   */
  function XorBelow64(a: nat, b: nat): int
  {
    a + FlipLow(a, b) + 2 * FlipLow(a / 2, b / 2)
      + 4 * FlipLow(a / 2 / 2, b / 2 / 2) + 8 * FlipLow(a / 2 / 2 / 2, b / 2 / 2 / 2)
      + 16 * FlipLow(a / 2 / 2 / 2 / 2, b / 2 / 2 / 2 / 2)
      + 32 * FlipLow(a / 2 / 2 / 2 / 2 / 2, b / 2 / 2 / 2 / 2 / 2)
  }

  /** Xor with an operand below 64 only flips the low six bits of `a`. */
  lemma XorSixBits(a: nat, b: nat)
    requires b < 64
    ensures Xor(a, b) == XorBelow64(a, b)
  {
    var a1, b1 := a / 2, b / 2;
    var a2, b2 := a1 / 2, b1 / 2;
    var a3, b3 := a2 / 2, b2 / 2;
    var a4, b4 := a3 / 2, b3 / 2;
    var a5, b5 := a4 / 2, b4 / 2;
    XorLowBit(a, b);
    XorLowBit(a1, b1);
    XorLowBit(a2, b2);
    XorLowBit(a3, b3);
    XorLowBit(a4, b4);
    XorLowBit(a5, b5);
    assert b5 / 2 == 0;
    XorZero(a5 / 2);
    Telescope(Xor(a, b) - a, Xor(a1, b1) - a1, Xor(a2, b2) - a2, Xor(a3, b3) - a3, Xor(a4, b4) - a4,
      Xor(a5, b5) - a5, FlipLow(a, b), FlipLow(a1, b1), FlipLow(a2, b2), FlipLow(a3, b3),
      FlipLow(a4, b4), FlipLow(a5, b5));
  }

  lemma XorLowBit(a: nat, b: nat)
    ensures Xor(a, b) - a == FlipLow(a, b) + 2 * (Xor(a / 2, b / 2) - a / 2)
  {
    XorUnfold(a, b);
    LowBitDifference(Xor(a, b), a, b);
  }

  /** If y has the lowest bit of a + b, then y - a is FlipLow(a, b) plus twice the difference of the higher bits. */
  lemma LowBitDifference(y: nat, a: nat, b: nat)
    requires y % 2 == (a + b) % 2
    ensures y - a == FlipLow(a, b) + 2 * (y / 2 - a / 2)
  {
    assert y == 2 * (y / 2) + y % 2;
    assert a == 2 * (a / 2) + a % 2;
    ParitySum(a, b);
  }

  lemma Telescope(d0: int, d1: int, d2: int, d3: int, d4: int, d5: int,
                  f0: int, f1: int, f2: int, f3: int, f4: int, f5: int)
    requires d0 == f0 + 2 * d1 && d1 == f1 + 2 * d2 && d2 == f2 + 2 * d3
    requires d3 == f3 + 2 * d4 && d4 == f4 + 2 * d5 && d5 == f5
    ensures d0 == f0 + 2 * f1 + 4 * f2 + 8 * f3 + 16 * f4 + 32 * f5
  {
  }

  lemma ParitySum(a: nat, b: nat)
    ensures (a + b) % 2 == (a % 2 + b % 2) % 2
  {
  }
}
