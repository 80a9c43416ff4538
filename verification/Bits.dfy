// Bytes, powers of two, and the bitwise operations that the C code writes with
// shifts and masks, stated on natural numbers.
module Bits {
  type byte = b: int | 0 <= b < 256

  type uint32 = x: int | 0 <= x < 0x1_0000_0000
  type uint64 = x: int | 0 <= x < 0x1_0000_0000_0000_0000

  const TWO_TO_31: nat := 0x8000_0000
  const TWO_TO_32: nat := 0x1_0000_0000
  const TWO_TO_64: nat := 0x1_0000_0000_0000_0000

  // v << n
  function Shl(v: nat, n: nat): (r: nat)
    ensures v > 0 ==> r > 0
  {
    if n == 0 then v else 2 * Shl(v, n - 1)
  }

  lemma {:induction false} ShlAdd(a: nat, b: nat, n: nat)
    ensures Shl(a + b, n) == Shl(a, n) + Shl(b, n)
  {
    if n > 0 {
      ShlAdd(a, b, n - 1);
    }
  }

  lemma {:induction false} ShlMonotone(a: nat, b: nat, n: nat)
    requires a <= b
    ensures Shl(a, n) <= Shl(b, n)
  {
    if n > 0 {
      ShlMonotone(a, b, n - 1);
    }
  }

  lemma {:induction false} ShlShl(v: nat, m: nat, n: nat)
    ensures Shl(Shl(v, m), n) == Shl(v, m + n)
  {
    if n > 0 {
      ShlShl(v, m, n - 1);
    }
  }

  lemma ShlThree(v: nat)
    ensures Shl(v, 3) == 8 * v
  {
    assert Shl(v, 1) == 2 * v;
    assert Shl(v, 2) == 2 * Shl(v, 1);
  }

  lemma ShlSeven(v: nat, n: nat)
    ensures Shl(v, n + 7) == Shl(128 * v, n)
  {
    ShlShl(v, 7, n);
    ShlThree(v);
    ShlShl(v, 3, 3);
    ShlThree(8 * v);
    ShlShl(v, 6, 1);
  }

  lemma ShlBound(a: nat, m: nat, n: nat)
    requires a > 0 && m <= n
    ensures Shl(1, m) <= Shl(a, n)
  {
    ShlShl(1, n - m, m);
    ShlMonotone(1, Shl(1, n - m), m);
    ShlMonotone(1, a, n);
  }

  lemma PowersOfTwo()
    ensures Shl(1, 7) == 128
    ensures Shl(1, 28) == 0x1000_0000
    ensures Shl(1, 32) == TWO_TO_32
    ensures Shl(1, 64) == TWO_TO_64
  {
    assert Shl(1, 8) == 256;
    ShlShl(1, 8, 8);
    assert Shl(256, 8) == 0x1_0000;
    ShlShl(1, 16, 8);
    assert Shl(0x1_0000, 8) == 0x100_0000;
    ShlShl(1, 24, 8);
    assert Shl(0x100_0000, 8) == TWO_TO_32;
    ShlShl(1, 24, 4);
    assert Shl(0x100_0000, 4) == 0x1000_0000;
    ShlShl(1, 32, 8);
    assert Shl(TWO_TO_32, 8) == 0x100_0000_0000;
    ShlShl(1, 40, 8);
    assert Shl(0x100_0000_0000, 8) == 0x1_0000_0000_0000;
    ShlShl(1, 48, 8);
    assert Shl(0x1_0000_0000_0000, 8) == 0x100_0000_0000_0000;
    ShlShl(1, 56, 8);
  }

  // A nonzero value that stays below 2^32, or 2^64, is not shifted that far.
  lemma ShiftFits(v: nat, n: nat)
    requires v > 0
    ensures Shl(v, n) < TWO_TO_32 ==> n < 32
    ensures Shl(v, n) < TWO_TO_64 ==> n < 64
  {
    PowersOfTwo();
    if n >= 32 {
      ShlBound(v, 32, n);
    }
    if n >= 64 {
      ShlBound(v, 64, n);
    }
  }

  // Bitwise or of two natural numbers.
  function BitOr(a: nat, b: nat): nat
  {
    if a == 0 then b
    else if b == 0 then a
    else (if a % 2 == 1 || b % 2 == 1 then 1 else 0) + 2 * BitOr(a / 2, b / 2)
  }

  // Or with a value shifted above every set bit is addition: this is what makes
  // `result |= x << bitpos` accumulate a number in base 128.
  lemma {:induction false} BitOrDisjoint(a: nat, b: nat, k: nat)
    requires a < Shl(1, k)
    ensures BitOr(a, Shl(b, k)) == a + Shl(b, k)
  {
    if a > 0 && k > 0 {
      BitOrDisjoint(a / 2, b, k - 1);
    }
  }

  lemma {:induction false} BitOrBound(a: nat, b: nat, k: nat)
    requires a < Shl(1, k) && b < Shl(1, k)
    ensures BitOr(a, b) < Shl(1, k)
  {
    if a > 0 && b > 0 {
      BitOrBound(a / 2, b / 2, k - 1);
    }
  }

  function BitOr32(a: uint32, b: uint32): (r: uint32)
    ensures r == BitOr(a, b)
  {
    PowersOfTwo();
    BitOrBound(a, b, 32);
    BitOr(a, b)
  }

  function BitOr64(a: uint64, b: uint64): (r: uint64)
    ensures r == BitOr(a, b)
  {
    PowersOfTwo();
    BitOrBound(a, b, 64);
    BitOr(a, b)
  }
}
