/** The dimension check applied to an exported drawable: the C++ helper
    `isPowerOfTwo(uint32_t x)` is `x != 0 && (x & (x - 1)) == 0`. */
module DimensionValidator {

  /** The C++ `uint32_t`. */
  newtype uint32 = x: int | 0 <= x < 0x1_0000_0000

  /** 2 to the power k. */
  function Pow2(k: nat): (r: nat)
    ensures r >= 1
  {
    if k == 0 then 1 else 2 * Pow2(k - 1)
  }

  /** Bitwise and of two naturals, bit by bit from the least significant one
      (the C++ operator `&` on unsigned operands). */
  function BitAnd(a: nat, b: nat): nat
    decreases a
  {
    if a == 0 || b == 0 then 0
    else 2 * BitAnd(a / 2, b / 2) + (if a % 2 == 1 && b % 2 == 1 then 1 else 0)
  }

  /** The source's bit trick. The subtraction `x - 1` would wrap around for
      x == 0 in C++, but the left operand of `&&` already excludes that case. */
  function IsPowerOfTwo(x: uint32): bool
  {
    x != 0 && BitAnd(x as nat, (x - 1) as nat) == 0
  }

  lemma {:induction false} BitAndSelf(a: nat)
    ensures BitAnd(a, a) == a
    decreases a
  {
    if a != 0 {
      BitAndSelf(a / 2);
    }
  }

  lemma {:induction false} Pow2Add(a: nat, b: nat)
    ensures Pow2(a + b) == Pow2(a) * Pow2(b)
    decreases b
  {
    if b > 0 {
      Pow2Add(a, b - 1);
    }
  }

  lemma {:induction false} Pow2Monotone(j: nat, k: nat)
    requires j <= k
    ensures Pow2(j) <= Pow2(k)
    decreases k
  {
    if j < k {
      Pow2Monotone(j, k - 1);
    }
  }

  /** 2^32 is the first power of two that a `uint32_t` cannot hold. */
  lemma Pow2Of32()
    ensures Pow2(32) == 0x1_0000_0000
  {
    Pow2Add(8, 8);
    Pow2Add(16, 16);
  }

  /** A power of two shares no set bit with its predecessor. */
  lemma {:induction false} PowerHasNoLowerBits(k: nat)
    ensures BitAnd(Pow2(k), Pow2(k) - 1) == 0
  {
    if k > 0 {
      PowerHasNoLowerBits(k - 1);
      var y := Pow2(k - 1);
      assert BitAnd(2 * y, 2 * y - 1) == 2 * BitAnd(y, y - 1);
    }
  }

  /** A positive natural that shares no set bit with its predecessor is a
      power of two. */
  lemma {:induction false} NoLowerBitsIsPower(x: nat)
    requires x > 0 && BitAnd(x, x - 1) == 0
    ensures exists k: nat :: x == Pow2(k)
    decreases x
  {
    var y := x / 2;
    if x == 1 {
      assert x == Pow2(0);
    } else if x % 2 == 0 {
      assert BitAnd(x, x - 1) == 2 * BitAnd(y, y - 1);
      NoLowerBitsIsPower(y);
      var k: nat :| y == Pow2(k);
      assert x == Pow2(k + 1);
    } else {
      assert BitAnd(x, x - 1) == 2 * BitAnd(y, y);
      BitAndSelf(y);
      assert false;
    }
  }

  /** A power of two that fits in a `uint32_t` has an exponent below 32. */
  lemma ExponentBelow32(x: uint32, k: nat)
    requires x as int == Pow2(k)
    ensures k < 32
  {
    if k >= 32 {
      Pow2Monotone(32, k);
      Pow2Of32();
    }
  }

  /** `isPowerOfTwo(x)` holds iff x is 2^k for some k < 32. */
  lemma IsPowerOfTwoIff(x: uint32)
    ensures IsPowerOfTwo(x) <==> exists k: nat :: k < 32 && x as int == Pow2(k)
  {
    if IsPowerOfTwo(x) {
      NoLowerBitsIsPower(x as nat);
      var k: nat :| x as nat == Pow2(k);
      ExponentBelow32(x, k);
    } else {
      forall k: nat | k < 32 ensures x as int != Pow2(k) {
        PowerHasNoLowerBits(k);
      }
    }
  }

  /** Zero and three are rejected, one is accepted; 100 is rejected and 256
      accepted, so a 100 by 256 drawable cannot be exported. */
  lemma Examples()
    ensures !IsPowerOfTwo(0) && IsPowerOfTwo(1) && !IsPowerOfTwo(3)
    ensures !IsPowerOfTwo(100) && IsPowerOfTwo(256)
  {
    PowerHasNoLowerBits(0);
    PowerHasNoLowerBits(8);
  }
}
