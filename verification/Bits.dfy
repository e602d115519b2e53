/** The bitwise operations of the lock word, bit by bit, and what they come to for its top bit. */
module Bits {

  function Pow2(k: nat): (p: nat)
    ensures p > 0
  {
    if k == 0 then 1 else 2 * Pow2(k - 1)
  }

  function BitAnd(a: nat, b: nat): nat {
    if a == 0 || b == 0 then 0
    else 2 * BitAnd(a / 2, b / 2) + (if a % 2 == 1 && b % 2 == 1 then 1 else 0)
  }

  function BitOr(a: nat, b: nat): nat
    decreases a + b
  {
    if a == 0 && b == 0 then 0
    else 2 * BitOr(a / 2, b / 2) + (if a % 2 == 1 || b % 2 == 1 then 1 else 0)
  }

  const USIZE_BITS := 64
  const WRITE_FLAG: nat := 0x8000_0000_0000_0000
  const WORD_LIMIT: nat := 0x1_0000_0000_0000_0000

  lemma FlagIsTopBit()
    ensures WRITE_FLAG == Pow2(USIZE_BITS - 1) && WORD_LIMIT == Pow2(USIZE_BITS)
  {
    assert Pow2(8) == 0x100;
    Pow2Sum(8, 8);
    Pow2Sum(16, 16);
    Pow2Sum(32, 31);
    Pow2Sum(16, 15);
    Pow2Sum(8, 7);
    assert Pow2(7) == 0x80;
  }

  lemma {:induction false} Pow2Sum(i: nat, j: nat)
    ensures Pow2(i + j) == Pow2(i) * Pow2(j)
  {
    if i > 0 {
      Pow2Sum(i - 1, j);
    }
  }

  lemma {:induction false} AndTopBit(n: nat, k: nat)
    requires n < Pow2(k + 1)
    ensures BitAnd(n, Pow2(k)) == if n >= Pow2(k) then Pow2(k) else 0
    decreases k
  {
    if k > 0 {
      AndTopBit(n / 2, k - 1);
    } else {
      assert n == 0 || n == 1;
    }
  }

  lemma {:induction false} AndBelowTopBit(n: nat, k: nat)
    requires n < Pow2(k + 1)
    ensures BitAnd(n, Pow2(k) - 1) == if n >= Pow2(k) then n - Pow2(k) else n
    decreases k
  {
    if k > 0 {
      AndBelowTopBit(n / 2, k - 1);
      assert (Pow2(k) - 1) / 2 == Pow2(k - 1) - 1;
      assert Pow2(k) - 1 > 0;
    } else {
      assert n == 0 || n == 1;
    }
  }

  lemma {:induction false} OrTopBit(n: nat, k: nat)
    requires n < Pow2(k + 1)
    ensures BitOr(n, Pow2(k)) == if n >= Pow2(k) then n else n + Pow2(k)
    decreases k
  {
    if k > 0 {
      OrTopBit(n / 2, k - 1);
    } else {
      assert n == 0 || n == 1;
    }
  }

  /** What the three operations of the lock on its word come to. */
  lemma FlagOperations(n: nat)
    requires n < WORD_LIMIT
    ensures BitAnd(n, WRITE_FLAG) == (if n >= WRITE_FLAG then WRITE_FLAG else 0)
    ensures BitAnd(n, WORD_LIMIT - 1 - WRITE_FLAG) == (if n >= WRITE_FLAG then n - WRITE_FLAG else n)
    ensures BitOr(n, WRITE_FLAG) == (if n >= WRITE_FLAG then n else n + WRITE_FLAG)
  {
    FlagIsTopBit();
    AndTopBit(n, USIZE_BITS - 1);
    AndBelowTopBit(n, USIZE_BITS - 1);
    OrTopBit(n, USIZE_BITS - 1);
  }
}
