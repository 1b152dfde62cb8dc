// The integer types and the division operator of the C++ sources.
module Arithmetic {
  const NS_PER_MS: int := 1_000_000

  type u32 = x: int | 0 <= x < 0x1_0000_0000
  type i32 = x: int | -0x8000_0000 <= x < 0x8000_0000
  type u64 = x: int | 0 <= x < 0x1_0000_0000_0000_0000

  function Min(a: int, b: int): int {
    if a <= b then a else b
  }

  /** Incrementing an unsigned integer wraps around. */
  function Next32(x: u32): u32 {
    if x == 0xFFFF_FFFF then 0 else x + 1
  }

  function Next64(x: u64): u64 {
    if x == 0xFFFF_FFFF_FFFF_FFFF then 0 else x + 1
  }

  function Add64(x: u64, y: u64): u64 {
    if x + y < 0x1_0000_0000_0000_0000 then x + y else x + y - 0x1_0000_0000_0000_0000
  }

  /** A signed 32-bit count converted to 64 unsigned bits. */
  function ToU64(x: i32): u64 {
    if x >= 0 then x else x + 0x1_0000_0000_0000_0000
  }

  /** The value of a counter that started at zero, after `n` increments. */
  function Counter32(n: nat): u32 {
    if n == 0 then 0 else Next32(Counter32(n - 1))
  }

  function Counter64(n: nat): u64 {
    if n == 0 then 0 else Next64(Counter64(n - 1))
  }

  lemma {:induction false} Counter32IsModulo(n: nat)
    ensures Counter32(n) == n % 0x1_0000_0000
  {
    if n == 0 {
    } else {
      Counter32IsModulo(n - 1);
    }
  }

  lemma {:induction false} Counter64IsModulo(n: nat)
    ensures Counter64(n) == n % 0x1_0000_0000_0000_0000
  {
    if n == 0 {
    } else {
      Counter64IsModulo(n - 1);
    }
  }

  lemma Add64IsModulo(x: u64, y: u64)
    ensures Add64(x, y) == (x + y) % 0x1_0000_0000_0000_0000
  {
  }

  /** C++ integer division: the quotient is rounded toward zero. */
  function TruncDiv(a: int, b: int): int
    requires b > 0
  {
    if a >= 0 then a / b else -(-a / b)
  }

  /** What rounding toward zero means: the quotient has the sign of the dividend and loses less than one. */
  ghost predicate Truncates(a: int, b: int, q: int) {
    if a >= 0 then q >= 0 && q * b <= a < (q + 1) * b
    else q <= 0 && -q * b <= -a < (-q + 1) * b
  }

  lemma TruncDivExactly(a: int, b: int, q: int)
    requires b > 0
    ensures Truncates(a, b, q) <==> q == TruncDiv(a, b)
  {
    if a >= 0 {
      QuotientExactly(a, b, q);
    } else {
      QuotientExactly(-a, b, -q);
    }
  }

  lemma QuotientExactly(a: nat, b: nat, q: int)
    requires b > 0
    ensures (q >= 0 && q * b <= a < (q + 1) * b) <==> q == a / b
  {
    var t := a / b;
    assert a == t * b + a % b;
    assert (t + 1) * b == t * b + b;
    if q > t { MulMonotone(t + 1, q, b); }
    if q < t { MulMonotone(q + 1, t, b); }
  }

  /** Truncation loses less than one unit, whatever the sign of the dividend and of the bound. */
  lemma TruncDivAtMost(a: int, b: int, q: int)
    requires b > 0
    ensures TruncDiv(a, b) <= q ==> a < (q + 1) * b
  {
    if TruncDiv(a, b) <= q {
      var t := TruncDiv(a, b);
      if a >= 0 {
        assert a == t * b + a % b;
      } else {
        assert -a == -t * b + -a % b;
      }
      assert a < (t + 1) * b;
      assert (t + 1) * b <= (q + 1) * b by { MulMonotone(t + 1, q + 1, b); }
    }
  }

  lemma MulMonotone(x: int, y: int, b: int)
    requires x <= y && b >= 0
    ensures x * b <= y * b
  {
    assert (y - x) * b >= 0;
  }
}
