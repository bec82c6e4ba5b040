/**
 * Bytes, and Python's bit operations on non-negative integers (`<<`, `|`,
 * `&`), in the arithmetic they stand for.
 */
module Bytes {

  /** An unsigned 8-bit value: an item of a `bytes` object. */
  newtype byte = x: int | 0 <= x < 256

  function Pow2(k: nat): (p: nat)
    ensures p > 0
  {
    if k == 0 then 1 else 2 * Pow2(k - 1)
  }

  /** `x << k`. */
  function Shl(x: nat, k: nat): nat {
    x * Pow2(k)
  }

  /** `x & (1 << k) != 0`: bit `k` of `x`, counting from the least significant. */
  predicate TestBit(x: nat, k: nat) {
    if k == 0 then x % 2 == 1 else TestBit(x / 2, k - 1)
  }

  /** `a | b`, bit by bit from the bottom. */
  function Or(a: nat, b: nat): nat
    decreases a + b
  {
    if a == 0 then b
    else if b == 0 then a
    else 2 * Or(a / 2, b / 2) + (if a % 2 == 1 || b % 2 == 1 then 1 else 0)
  }

  lemma {:induction false} Pow2Add(a: nat, b: nat)
    ensures Pow2(a + b) == Pow2(a) * Pow2(b)
  {
    if a > 0 {
      Pow2Add(a - 1, b);
      assert Pow2(a + b) == 2 * Pow2(a - 1 + b);
    }
  }

  lemma ShlStep(x: nat, k: nat)
    requires k > 0
    ensures Shl(x, k) == 2 * Shl(x, k - 1)
  {
    assert Pow2(k) == 2 * Pow2(k - 1);
    assert x * (2 * Pow2(k - 1)) == 2 * (x * Pow2(k - 1));
  }

  /*
   * Single bits.
   */

  /** No bit of zero is set. */
  lemma {:induction false} ZeroBits(k: nat)
    ensures !TestBit(0, k)
  {
    if k > 0 {
      ZeroBits(k - 1);
    }
  }

  /** A number below `2^n` has no bit set from bit `n` up. */
  lemma {:induction false} BitsBelow(x: nat, n: nat, k: nat)
    requires x < Pow2(n) && n <= k
    ensures !TestBit(x, k)
  {
    if n == 0 {
      assert x == 0;
      ZeroBits(k);
    } else {
      BitsBelow(x / 2, n - 1, k - 1);
    }
  }

  /**
   * Adding `1 << n` to a number below `2^n` sets bit `n` and keeps every
   * other bit.
   */
  lemma {:induction false} AddHighBit(prev: nat, n: nat, k: nat)
    requires prev < Pow2(n)
    ensures TestBit(prev + Pow2(n), k) <==> k == n || TestBit(prev, k)
  {
    var x := prev + Pow2(n);
    if n == 0 {
      assert prev == 0 && x == 1;
      if k > 0 {
        ZeroBits(k - 1);
        ZeroBits(k);
      }
    } else {
      assert Pow2(n) == 2 * Pow2(n - 1);
      if k > 0 {
        assert x / 2 == prev / 2 + Pow2(n - 1);
        AddHighBit(prev / 2, n - 1, k - 1);
      }
    }
  }

  /*
   * OR.
   */

  /** The OR of two numbers below `2^k` is below `2^k`. */
  lemma {:induction false} OrBelow(a: nat, b: nat, k: nat)
    requires a < Pow2(k) && b < Pow2(k)
    ensures Or(a, b) < Pow2(k)
    decreases k
  {
    if a != 0 && b != 0 {
      OrBelow(a / 2, b / 2, k - 1);
    }
  }

  /** Doubling both operands doubles their OR. */
  lemma OrDouble(x: nat, y: nat)
    ensures Or(2 * x, 2 * y) == 2 * Or(x, y)
  {
    if x != 0 && y != 0 {
      assert (2 * x) / 2 == x && (2 * y) / 2 == y;
    }
  }

  /** Shifting both operands by `k` shifts their OR by `k`. */
  lemma {:induction false} OrShifted(a: nat, b: nat, k: nat)
    ensures Or(Shl(a, k), Shl(b, k)) == Shl(Or(a, b), k)
  {
    if k > 0 {
      OrShifted(a, b, k - 1);
      ShlStep(a, k);
      ShlStep(b, k);
      ShlStep(Or(a, b), k);
      OrDouble(Shl(a, k - 1), Shl(b, k - 1));
    }
  }

  /** OR with a value that fits below bit `k` of a shifted value is addition. */
  lemma {:induction false} OrDisjoint(a: nat, b: nat, k: nat)
    requires b < Pow2(k)
    ensures Or(Shl(a, k), b) == Shl(a, k) + b
  {
    if k > 0 && a != 0 && b != 0 {
      var h := Shl(a, k - 1);
      ShlStep(a, k);
      assert (2 * h) / 2 == h && (2 * h) % 2 == 0;
      OrDisjoint(a, b / 2, k - 1);
    }
  }
}
