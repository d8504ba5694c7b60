/** Unsigned 32-bit arithmetic as the C sources use it, over unbounded naturals. */
module Bits {

  type uint32 = x: nat | x < 0x1_0000_0000

  /** 1U << b */
  function Pow2(b: nat): (p: nat)
    ensures 1 <= p
  {
    if b == 0 then 1 else 2 * Pow2(b - 1)
  }

  /** x >> k */
  function Shr(x: nat, k: nat): nat
    decreases k
  {
    if k == 0 then x else Shr(x / 2, k - 1)
  }

  /** a & b */
  function BitAnd(a: nat, b: nat): nat {
    if a == 0 || b == 0 then 0
    else (if a % 2 == 1 && b % 2 == 1 then 1 else 0) + 2 * BitAnd(a / 2, b / 2)
  }

  lemma {:induction false} Pow2Monotone(a: nat, b: nat)
    requires a <= b
    ensures Pow2(a) <= Pow2(b)
    ensures a < b ==> 2 * Pow2(a) <= Pow2(b)
    decreases b
  {
    if a < b {
      Pow2Monotone(a, b - 1);
    }
  }

  lemma {:induction false} Pow2Four(b: nat)
    requires 2 <= b
    ensures Pow2(b) % 4 == 0 && 4 <= Pow2(b)
  {
    Pow2Monotone(2, b);
    assert Pow2(b) == 2 * Pow2(b - 1) == 4 * Pow2(b - 2);
  }

  lemma Pow2Of32()
    ensures Pow2(31) == 0x8000_0000 && Pow2(32) == 0x1_0000_0000
  {
    assert Pow2(8) == 256;
    assert Pow2(16) == 65536;
    assert Pow2(24) == 0x100_0000;
    assert Pow2(31) == 0x8000_0000;
  }

  function Log2(n: nat): nat { if n < 2 then 0 else 1 + Log2(n / 2) }

  lemma {:induction false} Log2Bounds(n: nat)
    requires 1 <= n
    ensures Pow2(Log2(n)) <= n < 2 * Pow2(Log2(n))
  {
    if 2 <= n {
      Log2Bounds(n / 2);
    }
  }

  /** Shifting k bits off a (b + k)-bit number leaves b bits. */
  lemma {:induction false} ShrBound(x: nat, k: nat, b: nat)
    requires x < Pow2(b + k)
    ensures Shr(x, k) < Pow2(b)
    decreases k
  {
    if k > 0 {
      assert Pow2(b + k) == 2 * Pow2(b + k - 1);
      ShrBound(x / 2, k - 1, b);
    }
  }

  /** Shifting k bits off divides by 2^k. */
  lemma {:induction false} ShrBounds(x: nat, k: nat)
    ensures Shr(x, k) * Pow2(k) <= x < Shr(x, k) * Pow2(k) + Pow2(k)
    decreases k
  {
    if k > 0 {
      ShrBounds(x / 2, k - 1);
      var q, p := Shr(x / 2, k - 1), Pow2(k - 1);
      assert q * (2 * p) == 2 * (q * p);
    } else {
      assert Shr(x, 0) * Pow2(0) == x;
    }
  }

  /** Masking with 2^b - 1 is reduction modulo 2^b; stated for one step of a cyclic scan. */
  lemma {:induction false} MaskWraps(i: nat, b: nat)
    requires i <= Pow2(b)
    ensures BitAnd(i, Pow2(b) - 1) == if i == Pow2(b) then 0 else i
    decreases b
  {
    if b > 0 {
      assert Pow2(b) == 2 * Pow2(b - 1);
      if i > 0 {
        MaskWraps(i / 2, b - 1);
      }
    }
  }

  lemma {:induction false} AndSelf(x: nat)
    ensures BitAnd(x, x) == x
  {
    if x > 0 {
      AndSelf(x / 2);
    }
  }

  /** x & (x - 1) clears the lowest set bit, so it is zero exactly on the powers of two. */
  lemma {:induction false} PowerOfTwoTest(x: nat, b: nat)
    requires Pow2(b) <= x < 2 * Pow2(b)
    ensures BitAnd(x, x - 1) == 0 <==> x == Pow2(b)
    decreases b
  {
    if x == 1 {
      Pow2Monotone(0, b);
    } else {
      assert b > 0 && Pow2(b) == 2 * Pow2(b - 1);
      if x % 2 == 0 {
        PowerOfTwoTest(x / 2, b - 1);
        assert (x - 1) / 2 == x / 2 - 1;
      } else {
        assert (x - 1) / 2 == x / 2;
        AndSelf(x / 2);
      }
    }
  }
}
