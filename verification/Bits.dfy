/**
 * The bitwise operators of C on unsigned words, defined bit by bit on the natural numbers, with
 * the facts about them that the other modules use.
 */
module Bits {
  /** Bit number k of x: (x >> k) & 1. */
  predicate Bit(x: nat, k: nat) {
    if k == 0 then x % 2 == 1 else Bit(x / 2, k - 1)
  }

  /** x << k, before the result is cut to a width. */
  function Shl(x: nat, k: nat): nat {
    if k == 0 then x else 2 * Shl(x, k - 1)
  }

  /** 1 << k */
  function Pow2(k: nat): (p: nat)
    ensures p >= 1
  {
    if k == 0 then 1 else 2 * Pow2(k - 1)
  }

  /** a | b */
  function Or(a: nat, b: nat): (r: nat)
    decreases a + b
  {
    if a + b == 0 then 0
    else 2 * Or(a / 2, b / 2) + (if a % 2 == 1 || b % 2 == 1 then 1 else 0)
  }

  /** a & b */
  function And(a: nat, b: nat): (r: nat)
    decreases a
  {
    if a == 0 then 0
    else 2 * And(a / 2, b / 2) + (if a % 2 == 1 && b % 2 == 1 then 1 else 0)
  }

  /** a & ~b */
  function AndNot(a: nat, b: nat): (r: nat)
    ensures r <= a
    decreases a
  {
    if a == 0 then 0
    else 2 * AndNot(a / 2, b / 2) + (if a % 2 == 1 && b % 2 == 0 then 1 else 0)
  }

  lemma {:induction false} ZeroBits(k: nat)
    ensures !Bit(0, k)
  {
    if k > 0 { ZeroBits(k - 1); }
  }

  lemma {:induction false} OrBit(a: nat, b: nat, k: nat)
    ensures Bit(Or(a, b), k) <==> Bit(a, k) || Bit(b, k)
    decreases k
  {
    if a + b == 0 {
      ZeroBits(k);
    } else if k > 0 {
      OrBit(a / 2, b / 2, k - 1);
    }
  }

  lemma {:induction false} AndBit(a: nat, b: nat, k: nat)
    ensures Bit(And(a, b), k) <==> Bit(a, k) && Bit(b, k)
    decreases k
  {
    if a == 0 {
      ZeroBits(k);
    } else if k > 0 {
      AndBit(a / 2, b / 2, k - 1);
    }
  }

  lemma {:induction false} AndNotBit(a: nat, b: nat, k: nat)
    ensures Bit(AndNot(a, b), k) <==> Bit(a, k) && !Bit(b, k)
    decreases k
  {
    if a == 0 {
      ZeroBits(k);
    } else if k > 0 {
      AndNotBit(a / 2, b / 2, k - 1);
    }
  }

  lemma Pow2Of32()
    ensures Pow2(32) == 0x1_0000_0000
  {
    assert Pow2(12) == 0x1000;
    assert Pow2(22) == 0x40_0000;
  }

  lemma {:induction false} ShlBit(x: nat, n: nat, k: nat)
    ensures Bit(Shl(x, n), k) <==> n <= k && Bit(x, k - n)
    decreases n
  {
    if n > 0 && k > 0 { ShlBit(x, n - 1, k - 1); }
  }

  /** (1 << n) - 1 has exactly the low n bits. */
  lemma {:induction false} LowOnes(n: nat, k: nat)
    ensures Bit(Pow2(n) - 1, k) <==> k < n
    decreases n
  {
    if n == 0 {
      ZeroBits(k);
    } else if k > 0 {
      assert (Pow2(n) - 1) / 2 == Pow2(n - 1) - 1;
      LowOnes(n - 1, k - 1);
    }
  }

  /** C's truth value of w & (1 << k) is bit k of w. */
  lemma {:induction false} AndShlBit(w: nat, k: nat)
    ensures And(w, Shl(1, k)) != 0 <==> Bit(w, k)
    decreases k
  {
    if w == 0 {
      ZeroBits(k);
    } else if k == 0 {
      NoBits(w / 2);
    } else {
      AndShlBit(w / 2, k - 1);
    }
  }

  lemma {:induction false} NoBits(w: nat)
    ensures And(w, 0) == 0
  {
    if w > 0 { NoBits(w / 2); }
  }

  lemma {:induction false} OrZero(a: nat)
    ensures Or(a, 0) == a && Or(0, a) == a
  {
    if a > 0 { OrZero(a / 2); }
  }

  /** Or-ing a value that fits in n bits leaves the bits above alone. */
  lemma {:induction false} OrLowBits(high: nat, low: nat, b: nat, n: nat)
    requires low < Pow2(n) && b < Pow2(n)
    ensures Or(Shl(high, n) + low, b) == Shl(high, n) + Or(low, b)
    ensures Or(low, b) < Pow2(n)
    decreases n
  {
    if n == 0 {
      OrZero(high);
    } else {
      OrLowBits(high, low / 2, b / 2, n - 1);
      assert (2 * Shl(high, n - 1) + low) / 2 == Shl(high, n - 1) + low / 2;
    }
  }

  /** Or works on the high and the low bits of its operands separately. */
  lemma {:induction false} OrSplit(a: nat, x: nat, b: nat, y: nat, n: nat)
    requires x < Pow2(n) && y < Pow2(n)
    ensures Or(Shl(a, n) + x, Shl(b, n) + y) == Shl(Or(a, b), n) + Or(x, y)
    decreases n
  {
    if n > 0 {
      OrSplit(a, x / 2, b, y / 2, n - 1);
      assert (2 * Shl(a, n - 1) + x) / 2 == Shl(a, n - 1) + x / 2;
      assert (2 * Shl(b, n - 1) + y) / 2 == Shl(b, n - 1) + y / 2;
    }
  }

  /** The two halves of a page-table entry: address bits from 12 up, flags below. */
  lemma OrLow12(high: nat, low: nat, b: nat)
    requires low < 4096 && b < 4096
    ensures Or(high * 4096 + low, b) == high * 4096 + Or(low, b) && Or(low, b) < 4096
  {
    assert Pow2(12) == 4096;
    ShlIsProduct(high, 12);
    OrLowBits(high, low, b, 12);
  }

  lemma {:induction false} ShlIsProduct(x: nat, n: nat)
    ensures Shl(x, n) == x * Pow2(n)
  {
    if n > 0 {
      ShlIsProduct(x, n - 1);
      assert x * (2 * Pow2(n - 1)) == 2 * (x * Pow2(n - 1));
    }
  }

  /** Or stays inside 32 bits. */
  lemma Or32(a: nat, b: nat)
    requires a < 0x1_0000_0000 && b < 0x1_0000_0000
    ensures Or(a, b) < 0x1_0000_0000
  {
    Pow2Of32();
    OrLowBits(0, a, b, 32);
    ShlIsProduct(0, 32);
  }

  lemma {:induction false} ShlFits(x: nat, width: nat, shift: nat)
    requires x < Pow2(width)
    ensures Shl(x, shift) < Pow2(width + shift)
    decreases shift
  {
    if shift > 0 { ShlFits(x, width, shift - 1); }
  }

  lemma {:induction false} Pow2Grows(a: nat, b: nat)
    requires a <= b
    ensures Pow2(a) <= Pow2(b)
    decreases b
  {
    if a < b { Pow2Grows(a, b - 1); }
  }

  lemma {:induction false} OrCommutes(a: nat, b: nat)
    ensures Or(a, b) == Or(b, a)
    decreases a + b
  {
    if a + b > 0 { OrCommutes(a / 2, b / 2); }
  }

  /** Masking with (1 << n) - 1 keeps the low n bits. */
  lemma {:induction false} AndLowBits(high: nat, low: nat, n: nat)
    requires low < Pow2(n)
    ensures And(Shl(high, n) + low, Pow2(n) - 1) == low
    decreases n
  {
    if n == 0 {
      NoBits(high);
    } else if Shl(high, n) + low > 0 {
      AndLowBits(high, low / 2, n - 1);
      assert (2 * Shl(high, n - 1) + low) / 2 == Shl(high, n - 1) + low / 2;
      assert (Pow2(n) - 1) / 2 == Pow2(n - 1) - 1;
    }
  }
}
