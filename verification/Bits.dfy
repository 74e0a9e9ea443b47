/**
 Powers of two, bitwise and on natural numbers, and masking as a remainder.
 */
module Bits {

  const U32: nat := 0x1_0000_0000

  /** A value stored in an unsigned 32-bit variable. */
  function ToU32(x: int): (r: nat)
    ensures r < U32
  {
    x % U32
  }

  const I32: nat := 0x8000_0000

  /** A value stored in a signed 32-bit variable. */
  function ToI32(x: int): int {
    if x % U32 < I32 then x % U32 else x % U32 - U32
  }

  lemma {:induction false} ToI32Range(x: int)
    ensures ToI32(x) == x <==> -(I32 as int) <= x < I32
  {
  }

  /** The value stored is the one of its remainder class in the variable's range. */
  lemma {:induction false} ToI32Congruent(x: int)
    ensures (ToI32(x) - x) % 0x1_0000_0000 == 0 && -0x8000_0000 <= ToI32(x) < 0x8000_0000
  {
    var q := if x % U32 < I32 then x / U32 else x / U32 + 1;
    assert ToI32(x) - x == -q * U32;
  }

  lemma {:induction false} ToI32Shift(x: int, q: int)
    ensures ToI32(x + U32 * q) == ToI32(x)
  {
    assert (x + U32 * q) % U32 == x % U32;
  }

  /** Wrapping early makes no difference to one more digit, or to the sign. */
  lemma {:induction false} WrapsOn(x: int, i: int)
    ensures ToI32(ToI32(x) * 10 + i) == ToI32(x * 10 + i)
    ensures ToI32(ToI32(x)) == ToI32(x) && ToI32(-ToI32(x)) == ToI32(-x)
  {
    var q := if x % U32 < I32 then x / U32 else x / U32 + 1;
    assert ToI32(x) == x - U32 * q;
    ToI32Shift(x * 10 + i, -10 * q);
    ToI32Shift(x, -q);
    ToI32Shift(-x, q);
  }

  function Min(a: int, b: int): int {
    if a < b then a else b
  }

  function Pow2(k: nat): (p: nat)
    ensures p > 0
  {
    if k == 0 then 1 else 2 * Pow2(k - 1)
  }

  /** Bitwise and, bit by bit. */
  function And(a: nat, b: nat): nat {
    if a == 0 || b == 0 then 0 else (a % 2) * (b % 2) + 2 * And(a / 2, b / 2)
  }

  lemma {:induction false} AndDouble(a: nat, n: nat)
    ensures And(a, 2 * n) == 2 * And(a / 2, n)
  {
  }

  // ----- Masking is a remainder -----

  lemma {:induction false} Multiple(a: int, m: int)
    requires m >= 0
    ensures a >= 1 ==> a * m >= m
    ensures a <= -1 ==> a * m <= -m
  {
    if a >= 1 {
      assert a * m == (a - 1) * m + m;
      assert (a - 1) * m >= 0;
    } else if a <= -1 {
      assert a * m == (a + 1) * m - m;
      assert (a + 1) * m <= 0;
    }
  }

  /** The remainder is the one number in range that differs by a multiple. */
  lemma {:induction false} ModUnique(x: int, r: int, q: int, m: nat)
    requires 0 <= r < m && x == r + q * m
    ensures x % m == r
  {
    var d := q - x / m;
    assert x == x % m + (x / m) * m;
    assert d * m == q * m - (x / m) * m == x % m - r;
    Multiple(d, m);
  }

  lemma {:induction false} ModAdd(a: int, q: int, m: nat)
    requires m > 0
    ensures (a + q * m) % m == a % m
  {
    assert a == a % m + (a / m) * m;
    assert a + q * m == a % m + (a / m + q) * m;
    ModUnique(a + q * m, a % m, a / m + q, m);
  }

  lemma {:induction false} Pow2Split(j: nat, k: nat)
    requires j <= k
    ensures Pow2(k) == Pow2(j) * Pow2(k - j)
  {
    if j > 0 {
      Pow2Split(j - 1, k - 1);
    }
  }

  lemma {:induction false} Pow2Mono(j: nat, k: nat)
    requires j <= k
    ensures Pow2(j) <= Pow2(k)
  {
    if j < k {
      Pow2Mono(j, k - 1);
    }
  }

  lemma {:induction false} AndMask(x: nat, k: nat)
    ensures And(x, Pow2(k) - 1) == x % Pow2(k)
  {
    if k == 0 {
      ModUnique(x, 0, x, 1);
    } else {
      AndMask(x / 2, k - 1);
      AndStep(x, Pow2(k - 1));
    }
  }

  /** All bits but the lowest. */
  lemma {:induction false} AndMaskAbove(x: nat, k: nat)
    ensures And(x, 2 * (Pow2(k) - 1)) == 2 * ((x / 2) % Pow2(k))
  {
    AndDouble(x, Pow2(k) - 1);
    AndMask(x / 2, k);
  }

  lemma {:induction false} AndStep(x: nat, p: nat)
    requires p > 0 && And(x / 2, p - 1) == (x / 2) % p
    ensures And(x, 2 * p - 1) == x % (2 * p)
  {
    ModHalf(x, p);
    if x > 0 {
      AndOdd(x, p);
    }
  }

  lemma {:induction false} AndOdd(x: nat, p: nat)
    requires x > 0 && p > 0
    ensures And(x, 2 * p - 1) == x % 2 + 2 * And(x / 2, p - 1)
  {
    assert (2 * p - 1) / 2 == p - 1 && (2 * p - 1) % 2 == 1;
  }

  lemma {:induction false} ModHalf(x: nat, p: nat)
    requires p > 0
    ensures x % (2 * p) == x % 2 + 2 * ((x / 2) % p)
  {
    var q, r := (x / 2) / p, (x / 2) % p;
    assert x / 2 == r + q * p;
    assert x == (2 * r + x % 2) + q * (2 * p);
    ModUnique(x, 2 * r + x % 2, q, 2 * p);
  }

  lemma {:induction false} U32IsPow2()
    ensures U32 == Pow2(32)
  {
    assert Pow2(8) == 256;
    Pow2Split(8, 16);
    Pow2Split(16, 32);
  }
}
