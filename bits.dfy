/**
 * Bit-level arithmetic on unbounded non-negative integers, as the identifier
 * packing of a Java `long` uses it: a left shift by `n` is a multiplication by
 * `Pow2(n)`, a right shift a division, and `|` is `BitOr` below.
 */
module Bits {

  function Pow2(n: nat): (r: nat)
    ensures r >= 1
  {
    if n == 0 then 1 else 2 * Pow2(n - 1)
  }

  /** The powers of two the identifier layout uses. */
  lemma Pow2Values()
    ensures Pow2(5) == 32 && Pow2(12) == 4096 && Pow2(17) == 131072 && Pow2(22) == 4194304
  {
    assert Pow2(5) == 32 by {
      assert Pow2(1) == 2; assert Pow2(2) == 4; assert Pow2(3) == 8; assert Pow2(4) == 16;
    }
    assert Pow2(12) == 4096 by {
      assert Pow2(6) == 64; assert Pow2(7) == 128; assert Pow2(8) == 256;
      assert Pow2(9) == 512; assert Pow2(10) == 1024; assert Pow2(11) == 2048;
    }
    assert Pow2(17) == 131072 by {
      assert Pow2(13) == 8192; assert Pow2(14) == 16384; assert Pow2(15) == 32768;
      assert Pow2(16) == 65536;
    }
    assert Pow2(18) == 262144; assert Pow2(19) == 524288; assert Pow2(20) == 1048576;
    assert Pow2(21) == 2097152;
  }

  /** Bitwise OR of two non-negative integers, bit by bit from the lowest. */
  function BitOr(a: nat, b: nat): nat
    decreases a + b
  {
    if a == 0 then b
    else if b == 0 then a
    else 2 * BitOr(a / 2, b / 2) + (if a % 2 == 1 || b % 2 == 1 then 1 else 0)
  }

  lemma Twice(x: nat, q: nat, p: nat)
    requires p == 2 * q
    ensures x * p == 2 * (x * q)
  {
  }

  /** Doubling both operands doubles their OR: a common zero bit comes in at the bottom. */
  lemma OrDoubled(x: nat, y: nat)
    ensures BitOr(2 * x, 2 * y) == 2 * BitOr(x, y)
  {
    if x != 0 && y != 0 {
      assert (2 * x) / 2 == x && (2 * x) % 2 == 0;
      assert (2 * y) / 2 == y && (2 * y) % 2 == 0;
    }
  }

  /** OR with an even number takes the low bit of the other operand as it is. */
  lemma OrDoubledLow(x: nat, l: nat)
    ensures BitOr(2 * x, l) == 2 * BitOr(x, l / 2) + l % 2
  {
    if x != 0 && l != 0 {
      assert (2 * x) / 2 == x && (2 * x) % 2 == 0;
    }
  }

  /** OR of a value shifted left by `k` and one below `2^k` is their sum: the bits are disjoint. */
  lemma {:induction false} OrDisjoint(hi: nat, lo: nat, k: nat, p: nat)
    requires p == Pow2(k) && lo < p
    ensures BitOr(hi * p, lo) == hi * p + lo
  {
    if k == 0 {
      assert lo == 0;
    } else if hi != 0 {
      var q := Pow2(k - 1);
      OrDisjoint(hi, lo / 2, k - 1, q);
      Twice(hi, q, p);
      OrDoubledLow(hi * q, lo);
    }
  }

  /** OR commutes with a common left shift by `k`. */
  lemma {:induction false} OrShifted(a: nat, b: nat, k: nat, p: nat)
    requires p == Pow2(k)
    ensures BitOr(a * p, b * p) == BitOr(a, b) * p
  {
    if k != 0 && a != 0 && b != 0 {
      var q := Pow2(k - 1);
      OrShifted(a, b, k - 1, q);
      Twice(a, q, p);
      Twice(b, q, p);
      Twice(BitOr(a, b), q, p);
      OrDoubled(a * q, b * q);
    }
  }
}
