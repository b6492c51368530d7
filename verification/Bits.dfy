/** The C shift and mask operators on non-negative integers, and when they are plain arithmetic. */
module Bits {

  function Pow2(k: nat): (p: nat)
    ensures p >= 1
  {
    if k == 0 then 1 else 2 * Pow2(k - 1)
  }

  /** x << k */
  function Shl(x: nat, k: nat): nat {
    if k == 0 then x else 2 * Shl(x, k - 1)
  }

  /** x >> k */
  function Shr(x: nat, k: nat): nat {
    if k == 0 then x else Shr(x / 2, k - 1)
  }

  /** The k low bits of x. */
  function Low(x: nat, k: nat): nat {
    if k == 0 then 0 else 2 * Low(x / 2, k - 1) + x % 2
  }

  /** Bitwise or, bit by bit from the least significant end. */
  function Or(x: nat, y: nat): nat {
    if x == 0 then y
    else if y == 0 then x
    else 2 * Or(x / 2, y / 2) + (if x % 2 == 1 || y % 2 == 1 then 1 else 0)
  }

  /** Bitwise and, bit by bit from the least significant end. */
  function And(x: nat, y: nat): nat {
    if x == 0 || y == 0 then 0
    else 2 * And(x / 2, y / 2) + (if x % 2 == 1 && y % 2 == 1 then 1 else 0)
  }

  lemma {:induction false} ShlIsProduct(x: nat, k: nat)
    ensures Shl(x, k) == x * Pow2(k)
  {
    if k > 0 {
      ShlIsProduct(x, k - 1);
      assert x * (2 * Pow2(k - 1)) == 2 * (x * Pow2(k - 1));
    }
  }

  /** A word is its high part shifted back plus its k low bits, so Shr is / and Low is %. */
  lemma {:induction false} ShrLow(x: nat, k: nat)
    ensures x == Shl(Shr(x, k), k) + Low(x, k)
    ensures Low(x, k) < Pow2(k)
  {
    if k > 0 {
      ShrLow(x / 2, k - 1);
    }
  }

  /** Or-ing into a word whose low k bits are clear is addition. */
  lemma {:induction false} OrIsAdd(x: nat, y: nat, k: nat)
    requires y < Pow2(k)
    ensures Or(Shl(x, k), y) == Or(y, Shl(x, k)) == Shl(x, k) + y
  {
    if k > 0 && Shl(x, k) > 0 && y > 0 {
      OrIsAdd(x, y / 2, k - 1);
    }
  }

  /** Masking with k one bits keeps the k low bits. */
  lemma {:induction false} AndIsLow(x: nat, k: nat)
    ensures And(x, Pow2(k) - 1) == Low(x, k)
  {
    if k > 0 {
      AndIsLow(x / 2, k - 1);
      if x == 0 {
        LowOfZero(k);
      }
    }
  }

  lemma LowOfZero(k: nat)
    ensures Low(0, k) == 0
  {
  }

  lemma {:induction false} Pow2Add(a: nat, b: nat)
    ensures Pow2(a + b) == Pow2(a) * Pow2(b)
  {
    if a > 0 {
      Pow2Add(a - 1, b);
      assert 2 * Pow2(a - 1) * Pow2(b) == 2 * (Pow2(a - 1) * Pow2(b));
    }
  }

  lemma {:induction false} Pow2Grows(a: nat, b: nat)
    requires a <= b
    ensures Pow2(a) <= Pow2(b)
  {
    if a < b {
      Pow2Grows(a, b - 1);
    }
  }

  lemma {:induction false} ShlAdd(x: nat, y: nat, k: nat)
    ensures Shl(x + y, k) == Shl(x, k) + Shl(y, k) && Shl(2 * x, k) == Shl(x, k + 1)
  {
    if k > 0 {
      ShlAdd(x, y, k - 1);
    }
  }

  lemma Pow2Table()
    ensures Pow2(0) == 1 && Pow2(1) == 2 && Pow2(2) == 4 && Pow2(3) == 8 && Pow2(4) == 0x10 && Pow2(5) == 0x20
    ensures Pow2(6) == 0x40 && Pow2(8) == 0x100
    ensures Pow2(10) == 0x400 && Pow2(12) == 0x1000 && Pow2(16) == 0x1_0000 && Pow2(18) == 0x4_0000
    ensures Pow2(24) == 0x100_0000 && Pow2(31) == 0x8000_0000 && Pow2(32) == 0x1_0000_0000
  {
    Pow2Add(4, 4);
    Pow2Add(4, 2);
    Pow2Add(8, 2);
    Pow2Add(8, 4);
    Pow2Add(8, 8);
    Pow2Add(16, 2);
    Pow2Add(16, 8);
    Pow2Add(16, 16);
    assert Pow2(32) == 2 * Pow2(31);
  }

  /** Shifting right by 6, 8, 12, 16 or 18 is division by the power of two it names. */
  lemma ShrTable(x: nat)
    ensures Shr(x, 0) == x
    ensures Shr(x, 6) == x / 0x40 && Low(x, 6) == x % 0x40
    ensures Shr(x, 8) == x / 0x100 && Low(x, 8) == x % 0x100
    ensures Shr(x, 12) == x / 0x1000
    ensures Shr(x, 16) == x / 0x1_0000
    ensures Shr(x, 18) == x / 0x4_0000
  {
    hide Shl, Low;
    Pow2Table();
    ShrLow(x, 6); ShlIsProduct(Shr(x, 6), 6);
    ShrLow(x, 8); ShlIsProduct(Shr(x, 8), 8);
    ShrLow(x, 12); ShlIsProduct(Shr(x, 12), 12);
    ShrLow(x, 16); ShlIsProduct(Shr(x, 16), 16);
    ShrLow(x, 18); ShlIsProduct(Shr(x, 18), 18);
  }
}
