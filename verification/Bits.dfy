/** Powers of two and bitwise operations on natural numbers. */
module Bits {

  function Pow2(n: nat): (p: nat)
    ensures p > 0
  {
    if n == 0 then 1 else 2 * Pow2(n - 1)
  }

  /** Bitwise or of two numbers of n bits. */
  function OrBits(a: nat, b: nat, n: nat): (r: nat)
    requires a < Pow2(n) && b < Pow2(n)
    ensures r < Pow2(n)
  {
    if n == 0 then 0 else
    2 * OrBits(a / 2, b / 2, n - 1) + if a % 2 == 1 || b % 2 == 1 then 1 else 0
  }

  lemma Bits8()
    ensures Pow2(8) == 256 && Pow2(4) == 16 && Pow2(5) == 32
  {
    assert Pow2(5) == 2 * Pow2(4) && Pow2(4) == 2 * Pow2(3) && Pow2(3) == 2 * Pow2(2) && Pow2(2) == 2 * Pow2(1);
    assert Pow2(8) == 2 * Pow2(7) && Pow2(7) == 2 * Pow2(6) && Pow2(6) == 2 * Pow2(5);
  }

  lemma {:induction false} OrOfNothing(a: nat, n: nat)
    requires a < Pow2(n)
    ensures OrBits(0, a, n) == a && OrBits(a, 0, n) == a
  {
    if n > 0 {
      OrOfNothing(a / 2, n - 1);
    }
  }

  /** Fields that do not share a bit are put side by side. */
  lemma {:induction false} OrOfFields(low: nat, high: nat, k: nat, n: nat)
    requires low < Pow2(k) && k <= n && high * Pow2(k) < Pow2(n) && low < Pow2(n)
    ensures OrBits(low, high * Pow2(k), n) == low + high * Pow2(k)
    ensures OrBits(high * Pow2(k), low, n) == low + high * Pow2(k)
  {
    if k == 0 {
      OrOfNothing(high, n);
    } else {
      assert high * Pow2(k) == 2 * (high * Pow2(k - 1));
      OrOfFields(low / 2, high, k - 1, n - 1);
    }
  }

  /** Bitwise and of two numbers of any width. */
  function And(a: nat, b: nat): nat
    decreases a
  {
    if a == 0 then 0 else
    2 * And(a / 2, b / 2) + if a % 2 == 1 && b % 2 == 1 then 1 else 0
  }

  lemma {:induction false} AndOfSame(a: nat)
    ensures And(a, a) == a
  {
    if a > 0 {
      AndOfSame(a / 2);
    }
  }

  /** Clearing the lowest bit leaves nothing exactly for powers of two. */
  lemma {:induction false} OneBit(n: nat, k: nat)
    requires Pow2(k) <= n < Pow2(k + 1)
    ensures And(n, n - 1) == 0 <==> n == Pow2(k)
  {
    if k > 0 {
      if n % 2 == 0 {
        assert (n - 1) / 2 == n / 2 - 1;
        OneBit(n / 2, k - 1);
      } else {
        assert (n - 1) / 2 == n / 2;
        AndOfSame(n / 2);
      }
    }
  }
}
