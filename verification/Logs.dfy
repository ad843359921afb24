// Powers of two and the compile-time logarithms of constinit_constants.hpp.
module Logs {

  function Pow2(n: nat): (p: nat)
    ensures p >= 1
  {
    if n == 0 then 1 else 2 * Pow2(n - 1)
  }

  lemma {:induction false} Pow2Monotone(m: nat, n: nat)
    requires m <= n
    ensures Pow2(m) <= Pow2(n)
    decreases n
  {
    if m < n {
      Pow2Monotone(m, n - 1);
    }
  }

  lemma {:induction false} Pow2Sum(m: nat, n: nat)
    ensures Pow2(m + n) == Pow2(m) * Pow2(n)
    decreases n
  {
    if n > 0 {
      Pow2Sum(m, n - 1);
    }
  }

  /** Least e with n <= 2^e: the number of halvings that reduce n items to one. */
  function CeilLog2(n: nat): (e: nat)
    requires n >= 1
  {
    if n == 1 then 0 else 1 + CeilLog2((n + 1) / 2)
  }

  /** The recursive definition is the least exponent whose power covers n. */
  lemma {:induction false} CeilLog2IsLeast(n: nat)
    requires n >= 1
    ensures n <= Pow2(CeilLog2(n))
    ensures CeilLog2(n) > 0 ==> Pow2(CeilLog2(n) - 1) < n
  {
    if n > 1 {
      CeilLog2IsLeast((n + 1) / 2);
    }
  }

  lemma {:induction false} CeilLog2Monotone(m: nat, n: nat)
    requires 1 <= m <= n
    ensures CeilLog2(m) <= CeilLog2(n)
    decreases n
  {
    if m > 1 {
      CeilLog2Monotone((m + 1) / 2, (n + 1) / 2);
    }
  }

  lemma CeilLog2Unique(n: nat, e: nat)
    requires n >= 1
    requires n <= Pow2(e) && (e > 0 ==> Pow2(e - 1) < n)
    ensures e == CeilLog2(n)
  {
    CeilLog2IsLeast(n);
    var c := CeilLog2(n);
    if e < c {
      Pow2Monotone(e, c - 1);
    } else if c < e {
      Pow2Monotone(c, e - 1);
    }
  }

  /** 2^31, the largest power a 32-bit unsigned `power` reaches before it wraps to zero. */
  const TOP_POWER: nat := 0x8000_0000

  lemma TopPower(e: nat)
    requires e <= 31
    ensures e <= 30 ==> 2 * Pow2(e) <= TOP_POWER
    ensures e == 30 ==> 2 * Pow2(e) == TOP_POWER
    ensures e == 31 ==> Pow2(e) == TOP_POWER
  {
    if e == 31 {
      Pow2Thirty(e - 1);
    } else {
      var thirty: nat :| thirty == 30;
      Pow2Thirty(thirty);
      Pow2Monotone(e, thirty);
    }
  }

  lemma Pow2Thirty(thirty: nat)
    requires thirty == 30
    ensures 2 * Pow2(thirty) == TOP_POWER
  {
    assert Pow2(10) == 1024;
    Pow2Sum(thirty - 10, 10);
    Pow2Sum(thirty - 20, 10);
  }

  /**
   * my_log2_ceil. Above 2^31 the 32-bit `power` wraps to zero and the loop (evaluated by the
   * compiler) never ends; the precondition is that range.
   */
  method Log2Ceil(x: real) returns (exponent: nat)
    requires x <= TOP_POWER as real
    ensures x <= Pow2(exponent) as real
    ensures exponent > 0 ==> Pow2(exponent - 1) as real < x
    ensures exponent <= 31
  {
    var power := 1;
    exponent := 0;
    while power as real < x
      invariant exponent <= 31
      invariant power == Pow2(exponent)
      invariant exponent > 0 ==> Pow2(exponent - 1) as real < x
      decreases 31 - exponent
    {
      TopPower(exponent);
      power := 2 * power;
      exponent := exponent + 1;
    }
  }

  /** `1 << exponent` on a 32-bit signed int: the last shift lands on the sign bit. */
  function IntShiftOne(exponent: nat): (r: int)
    requires exponent <= 31
  {
    if exponent == 31 then 0 - TOP_POWER else Pow2(exponent)
  }

  /**
   * my_log2_floor. It is the floor exactly when the signed shift does not reach the sign bit or the
   * argument is itself 2^31; on the rest of (2^30, 2^31) it answers 31 instead of 30.
   */
  method Log2Floor(x: real) returns (exponent: nat)
    requires 1.0 <= x <= TOP_POWER as real
    ensures (Pow2(exponent) as real <= x < 2.0 * Pow2(exponent) as real)
            <==> (2.0 * x <= TOP_POWER as real || x == TOP_POWER as real)
    ensures TOP_POWER as real < 2.0 * x ==> exponent == 31
  {
    exponent := Log2Ceil(x);
    TopPower(exponent);
    if exponent > 0 {
      TopPower(exponent - 1);
    }
    if IntShiftOne(exponent) as real > x {
      exponent := exponent - 1;
    }
  }

  /** Stack entries a halving traversal of n items may hold at once: stack_depth, or one for n = 1. */
  function DepthNeed(n: nat): (d: nat)
    requires n >= 1
    ensures d >= 1
  {
    if CeilLog2(n) == 0 then 1 else CeilLog2(n)
  }

  /** stack_depth for n entries: as many rows as the traversal needs, for two entries or more. */
  method StackDepth(n: nat) returns (depth: nat)
    requires 1 <= n <= TOP_POWER
    ensures depth == CeilLog2(n) && (n >= 2 ==> depth == DepthNeed(n))
  {
    depth := Log2Ceil(n as real);
    CeilLog2Unique(n, depth);
  }

  lemma DepthNeedHalf(m: nat, n: nat)
    requires 1 <= m && 2 * m <= n && 3 <= n
    ensures 1 + DepthNeed(m) <= DepthNeed(n)
  {
    CeilLog2Monotone(m, (n + 1) / 2);
    if m == 1 {
      CeilLog2Monotone(3, n);
      assert CeilLog2(3) == 1 + CeilLog2(2);
    }
  }

  lemma DepthNeedMonotone(m: nat, n: nat)
    requires 1 <= m <= n
    ensures DepthNeed(m) <= DepthNeed(n)
  {
    CeilLog2Monotone(m, n);
  }
}
