/** The cast of an integer to an IEEE 754 double: 53 significant bits, rounding to nearest, ties to even. */
module Doubles {
  import opened Bits

  /** Up to this magnitude every integer is a double. */
  const EXACT: int := 0x20_0000_0000_0000

  /** The spacing of doubles at n. */
  function Ulp(n: nat): (u: nat)
    ensures 1 <= u
  {
    if Log2(n) < 53 then 1 else Pow2(Log2(n) - 52)
  }

  /** The number of units nearest to n, the even one of two equally near. */
  function Units(n: nat, u: nat): nat
    requires 1 <= u
  {
    var q, r := n / u, n % u;
    if 2 * r < u || (2 * r == u && q % 2 == 0) then q else q + 1
  }

  function RoundTo(n: nat, u: nat): (m: int)
    requires 1 <= u
    ensures 0 <= m
  {
    MulMonotone(0, Units(n, u), u);
    Units(n, u) * u
  }

  function Double(v: int): int { if v >= 0 then RoundTo(v, Ulp(v)) else -RoundTo(-v, Ulp(-v)) }

  lemma MulMonotone(a: nat, b: nat, u: nat)
    requires a <= b
    ensures a * u <= b * u
  {
  }

  lemma DivisionUnique(q: nat, u: nat)
    requires 1 <= u
    ensures q * u / u == q && q * u % u == 0
  {
    var n := q * u;
    var d := n / u;
    assert n == d * u + n % u;
    assert (q + 1) * u == q * u + u && (d + 1) * u == d * u + u;
    if q < d {
      MulMonotone(q + 1, d, u);
    } else if d < q {
      MulMonotone(d + 1, q, u);
    }
  }

  lemma DivisionMonotone(a: nat, b: nat, u: nat)
    requires 1 <= u && a <= b
    ensures a / u <= b / u && (a / u == b / u ==> a % u <= b % u)
  {
    var q, p := a / u, b / u;
    assert a == q * u + a % u && b == p * u + b % u;
    assert (p + 1) * u == p * u + u;
    if p < q {
      MulMonotone(p + 1, q, u);
    }
  }

  lemma RoundToMonotone(a: nat, b: nat, u: nat)
    requires 1 <= u && a <= b
    ensures RoundTo(a, u) <= RoundTo(b, u)
  {
    DivisionMonotone(a, b, u);
    MulMonotone(Units(a, u), Units(b, u), u);
  }

  lemma {:induction false} Pow2Product(a: nat, b: nat)
    ensures Pow2(a + b) == Pow2(a) * Pow2(b)
    decreases a
  {
    if a > 0 {
      Pow2Product(a - 1, b);
      assert Pow2(a + b) == 2 * Pow2(a - 1 + b);
      assert Pow2(a) * Pow2(b) == 2 * (Pow2(a - 1) * Pow2(b));
    }
  }

  /** A power of two is a multiple of every smaller one. */
  lemma PowerRoundsToItself(p: nat, k: nat)
    requires k <= p
    ensures RoundTo(Pow2(p), Pow2(k)) == Pow2(p)
  {
    Pow2Product(p - k, k);
    DivisionUnique(Pow2(p - k), Pow2(k));
  }

  lemma {:induction false} Log2Monotone(a: nat, b: nat)
    requires a <= b
    ensures Log2(a) <= Log2(b)
  {
    if 2 <= a {
      Log2Monotone(a / 2, b / 2);
    }
  }

  lemma Log2Exact(n: nat)
    ensures Log2(n) < 53 <==> n < EXACT
  {
    Pow2Of53();
    if n > 0 {
      Log2Bounds(n);
      if Log2(n) < 53 {
        Pow2Monotone(Log2(n), 52);
      } else {
        Pow2Monotone(53, Log2(n));
      }
    }
  }

  lemma Pow2Of53()
    ensures Pow2(53) == EXACT && Pow2(52) * 2 == EXACT
  {
    Pow2Of32();
    Pow2Product(31, 22);
    assert Pow2(8) == 256;
    assert Pow2(16) == 65536;
    assert Pow2(22) == 0x40_0000;
    assert Pow2(53) == 2 * Pow2(52);
  }

  /** Rounding never passes a power of two. */
  lemma RoundSides(a: nat, b: nat)
    requires 1 <= a < b && Log2(a) < Log2(b)
    ensures RoundTo(a, Ulp(a)) <= Pow2(Log2(b)) <= RoundTo(b, Ulp(b))
  {
    hide RoundTo;
    var p := Log2(b);
    Log2Bounds(a);
    Log2Bounds(b);
    Pow2Monotone(Log2(a), p);
    var ka := if Log2(a) < 53 then 0 else Log2(a) - 52;
    var kb := if p < 53 then 0 else p - 52;
    assert Ulp(a) == Pow2(ka) && Ulp(b) == Pow2(kb);
    RoundToMonotone(a, Pow2(p), Pow2(ka));
    PowerRoundsToItself(p, ka);
    RoundToMonotone(Pow2(p), b, Pow2(kb));
    PowerRoundsToItself(p, kb);
  }

  lemma RoundUpMonotone(a: nat, b: nat)
    requires a <= b
    ensures RoundTo(a, Ulp(a)) <= RoundTo(b, Ulp(b))
  {
    hide RoundTo;
    Log2Monotone(a, b);
    if Log2(a) == Log2(b) {
      RoundToMonotone(a, b, Ulp(a));
    } else if a == 0 {
      ZeroRounds();
    } else {
      RoundSides(a, b);
    }
  }

  lemma ZeroRounds()
    ensures RoundTo(0, Ulp(0)) == 0
  {
  }

  /** The cast keeps order, though not strictly. */
  lemma DoubleMonotone(a: int, b: int)
    requires a <= b
    ensures Double(a) <= Double(b)
  {
    hide RoundTo;
    hide Ulp;
    if a >= 0 {
      RoundUpMonotone(a, b);
    } else if b < 0 {
      RoundUpMonotone(-b, -a);
    }
  }

  /** From 2^53 to 2^54 doubles are the even integers. */
  lemma UlpPastExact(n: nat)
    requires EXACT <= n < 2 * EXACT
    ensures Ulp(n) == 2
  {
    hide Pow2;
    Log2Exact(n);
    Log2Exact(n / 2);
    assert Log2(n) == 1 + Log2(n / 2);
    TwoToOne();
  }

  lemma TwoToOne()
    ensures Pow2(1) == 2
  {
  }

  /** Integers of magnitude up to 2^53 are kept. */
  lemma DoubleExact(v: int)
    requires -EXACT <= v <= EXACT
    ensures Double(v) == v
  {
    hide Log2;
    hide Pow2;
    var n := if v >= 0 then v else -v;
    Log2Exact(n);
    if n == EXACT {
      UlpPastExact(n);
    }
  }

  /** The sign is kept, zero included. */
  lemma DoubleSign(v: int)
    ensures 0 < v <==> 0 < Double(v)
    ensures 0 < v ==> 1 <= Double(v)
  {
    DoubleExact(0);
    DoubleExact(1);
    if 0 < v {
      DoubleMonotone(1, v);
    } else {
      DoubleMonotone(v, 0);
    }
  }

  /** A double has 53 significant bits. */
  lemma UlpIs(n: nat)
    ensures n < 0x20_0000_0000_0000 ==> Ulp(n) == 1
    ensures n >= 0x20_0000_0000_0000 ==> Ulp(n) * Pow2(52) <= n < Ulp(n) * Pow2(53)
  {
    Log2Exact(n);
    if n >= EXACT {
      Log2Bounds(n);
      Pow2Product(Log2(n) - 52, 52);
      Pow2Product(Log2(n) - 52, 53);
    }
  }

  /** The cast goes to the nearest multiple of the spacing. */
  lemma RoundsToNearest(n: nat, u: nat)
    requires 1 <= u
    ensures RoundTo(n, u) % u == 0 && 2 * n - u <= 2 * RoundTo(n, u) <= 2 * n + u
  {
    var q := n / u;
    assert n == q * u + n % u && (q + 1) * u == q * u + u;
    DivisionUnique(Units(n, u), u);
  }

  /** From half way between two multiples it goes to the even one. */
  lemma TiesToEven(n: nat, u: nat)
    requires 1 <= u && (2 * RoundTo(n, u) == 2 * n + u || 2 * RoundTo(n, u) == 2 * n - u)
    ensures RoundTo(n, u) / u % 2 == 0
  {
    var q, r, k := n / u, n % u, Units(n, u);
    assert n == q * u + r && (q + 1) * u == q * u + u;
    DivisionUnique(k, u);
    assert RoundTo(n, u) == k * u;
    assert 2 * r == u;
  }

  /** Powers of two are doubles. */
  lemma DoublePower(p: nat)
    ensures Double(Pow2(p)) == Pow2(p)
  {
    hide RoundTo;
    Log2OfPower(p);
    PowerRoundsToItself(p, if p < 53 then 0 else p - 52);
  }

  lemma {:induction false} Log2OfPower(p: nat)
    ensures Log2(Pow2(p)) == p
  {
    if p > 0 {
      Log2OfPower(p - 1);
    }
  }

  const TWO64: int := 0x1_0000_0000_0000_0000

  /** Below 2^65 the cast is off by at most 2048. */
  lemma DoubleNear(v: int)
    requires -2 * TWO64 < v < 2 * TWO64
    ensures v - 2048 <= Double(v) <= v + 2048
  {
    hide RoundTo;
    hide Log2;
    hide Pow2;
    var n := if v >= 0 then v else -v;
    UlpBelow65(n);
    RoundsToNearest(n, Ulp(n));
  }

  lemma Pow2Of64()
    ensures Pow2(64) == TWO64 && Pow2(63) == TWO64 / 2 && Pow2(65) == 2 * TWO64 && Pow2(12) == 4096
  {
    Pow2Of32();
    Pow2Product(32, 32);
    Pow2Product(31, 32);
    assert Pow2(8) == 256;
    assert Pow2(65) == 2 * Pow2(64);
  }

  lemma UlpBelow65(n: nat)
    requires n < 2 * TWO64
    ensures Ulp(n) <= 4096
  {
    Pow2Of64();
    if n > 0 {
      Log2Bounds(n);
      if Log2(n) >= 65 {
        Pow2Monotone(65, Log2(n));
      } else if Log2(n) >= 53 {
        Pow2Monotone(Log2(n) - 52, 12);
      }
    }
  }

  /** What casts to at most 2^63 lies below 2^64. */
  lemma CastBounded(v: int)
    requires -TWO64 / 2 <= Double(v) <= TWO64 / 2
    ensures -TWO64 < v < TWO64
  {
    hide Double;
    hide Pow2;
    Pow2Of64();
    DoublePower(64);
    if v >= TWO64 {
      DoubleMonotone(TWO64, v);
    } else if v <= -TWO64 {
      DoubleMonotone(v, -TWO64);
      DoubleNegates(TWO64);
    }
  }

  lemma DoubleNegates(v: int)
    requires 0 < v
    ensures Double(-v) == -Double(v)
  {
  }

  /** The first integer a double cannot hold. */
  lemma FirstInexact()
    ensures Double(EXACT + 1) == EXACT
  {
    hide Ulp;
    UlpPastExact(EXACT + 1);
  }
}
