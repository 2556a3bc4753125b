/**
 * Machine integers of the generator and the operators it applies to them.
 *
 * Coordinates are `i32` and side lengths `u32`; both are modelled as subset
 * types of `int`, so every assignment to one of them is checked not to
 * overflow. Dafny's `/` and `%` are Euclidean, Rust's truncate toward zero:
 * `Rem` spells out Rust's `%` for the positive divisors used here.
 *
 * Products of two variables (`y * size`, `size * size`) are written with
 * `Mul`, defined by recursion so that reasoning about it stays linear;
 * `MulIsProduct` ties it to `*`.
 */
module Arith {

  const I32_MIN: int := -0x8000_0000
  const I32_MAX: int := 0x7FFF_FFFF
  const U32_MAX: int := 0xFFFF_FFFF
  const U32_MODULUS: int := 0x1_0000_0000

  type int32 = x: int | -0x8000_0000 <= x <= 0x7FFF_FFFF
  type uint32 = x: int | 0 <= x <= 0xFFFF_FFFF

  predicate InInt32(x: int) {
    I32_MIN <= x <= I32_MAX
  }

  /** `v as i32`: reinterprets the 32 bits of an unsigned value as two's complement. */
  function AsInt32(v: uint32): (r: int32)
    ensures (r - v) % U32_MODULUS == 0
    ensures v <= I32_MAX ==> r == v
  {
    if v <= I32_MAX then v else v - U32_MODULUS
  }

  /** `x as u32`: reinterprets the 32 bits of a signed value as unsigned. */
  function AsUint32(x: int32): (r: uint32)
    ensures r == x % U32_MODULUS
    ensures 0 <= x ==> r == x
  {
    if 0 <= x then x else x + U32_MODULUS
  }

  /** `a * b`, as `a` additions of `b` (subtractions when `a` is negative). */
  function Mul(a: int, b: int): (r: int)
    ensures 0 <= a && 0 <= b ==> 0 <= r
    decreases if a < 0 then -a else a
  {
    if a == 0 then 0
    else if a > 0 then Mul(a - 1, b) + b
    else Mul(a + 1, b) - b
  }

  lemma {:induction false} MulIsProduct(a: int, b: int)
    ensures Mul(a, b) == a * b
    decreases if a < 0 then -a else a
  {
    if a > 0 {
      MulIsProduct(a - 1, b);
      assert a * b == (a - 1) * b + b;
    } else if a < 0 {
      MulIsProduct(a + 1, b);
      assert a * b == (a + 1) * b - b;
    }
  }

  /** If `a = q*m + r` with `0 <= r < m`, then `q` and `r` are Euclidean quotient and remainder. */
  lemma DivModUnique(a: int, q: int, r: int, m: int)
    requires 0 < m && 0 <= r < m && a == q * m + r
    ensures a / m == q && a % m == r
  {
    var q', r' := a / m, a % m;
    assert (q - q') * m == r' - r;
    if q > q' {
      MulAtLeast(q - q', m);
    } else if q < q' {
      MulAtLeast(q' - q, m);
    }
  }

  lemma MulAtLeast(d: int, m: int)
    requires 1 <= d && 0 < m
    ensures m <= d * m
  {
    assert d * m == (d - 1) * m + m;
  }

  /** Adding whole multiples of the modulus does not change the Euclidean remainder. */
  lemma ModAddMultiple(x: int, k: int, m: int)
    requires 0 < m
    ensures (x + k * m) % m == x % m
  {
    DivModUnique(x + k * m, x / m + k, x % m, m);
  }

  /** `v` moved onto `[0, n)` by adding or subtracting `n` as often as needed. */
  function Wrap(v: int, n: int): (r: int)
    requires 1 <= n
    ensures 0 <= r < n
    decreases if v < 0 then 1 else 0, if v < 0 then -v else v
  {
    if v < 0 then Wrap(v + n, n) else if v >= n then Wrap(v - n, n) else v
  }

  /** Wrapping is the Euclidean remainder. */
  lemma {:induction false} WrapIsMod(v: int, n: int)
    requires 1 <= n
    ensures Wrap(v, n) == v % n
    decreases if v < 0 then 1 else 0, if v < 0 then -v else v
  {
    if v < 0 {
      WrapIsMod(v + n, n);
      ModAddMultiple(v, 1, n);
    } else if v >= n {
      WrapIsMod(v - n, n);
      ModAddMultiple(v - n, 1, n);
    } else {
      DivModUnique(v, 0, v, n);
    }
  }

  /** Values whose difference is a multiple of `m` have the same remainder. */
  lemma Congruent(a: int, b: int, m: int)
    requires 0 < m && (a - b) % m == 0
    ensures a % m == b % m
  {
    var k := (a - b) / m;
    assert a == b + k * m;
    ModAddMultiple(b, k, m);
  }

  /**
   * Rust's `x % m` for a positive divisor: the remainder of the division
   * truncated toward zero, which is zero or has the sign of the dividend.
   */
  function Rem(x: int, m: int): (r: int)
    requires 0 < m
    ensures -m < r < m
    ensures r == 0 || (r < 0 <==> x < 0)
  {
    if 0 <= x then x % m else -((-x) % m)
  }

  /** The truncated remainder is congruent to the dividend. */
  lemma RemCongruent(x: int, m: int)
    requires 0 < m
    ensures (x - Rem(x, m)) % m == 0
  {
    if 0 <= x {
      DivModUnique(x - x % m, x / m, 0, m);
    } else {
      DivModUnique(x + (-x) % m, -((-x) / m), 0, m);
    }
  }

  /** `((x % m) + m) % m` neither overflows `i32` nor divides by zero. */
  predicate ModuloDefined(x: int32, m: int32) {
    0 < m && Rem(x, m) + m <= I32_MAX
  }

  /**
   * `modulo` (the true mathematical modulus): written in the source as
   * `((x % m) + m) % m` with Rust's truncating `%`.
   */
  function Modulo(x: int32, m: int32): (r: int32)
    requires ModuloDefined(x, m)
    ensures 0 <= r < m
  {
    var shifted: int32 := Rem(x, m) + m;
    Rem(shifted, m)
  }

  /**
   * `modulo` returns the least non-negative value congruent to `x`, negative
   * `x` included; Dafny's own `%` is Euclidean, so that value is `x % m`.
   */
  lemma ModuloIsMod(x: int32, m: int32)
    requires ModuloDefined(x, m)
    ensures Modulo(x, m) == x % m
  {
    var t := Rem(x, m);
    RemCongruent(x, m);
    Congruent(x, t, m);
    ModAddMultiple(t, 1, m);
  }
}
