/**
 Facts about products, quotients and remainders that several modules need.
 */
module Arithmetic {

  const INT_MAX := 0x7FFF_FFFF
  const LLONG_MAX := 0x7FFF_FFFF_FFFF_FFFF

  /** A 32-bit int of the program. */
  type Int = x: int | -0x8000_0000 <= x <= INT_MAX

  /** A 64-bit long long of the program. */
  type Long = x: int | -0x8000_0000_0000_0000 <= x <= LLONG_MAX

  /** Two's-complement value of a 32-bit int expression. */
  function Int32(x: int): int {
    var r := x % 0x1_0000_0000;
    if r < 0x8000_0000 then r else r - 0x1_0000_0000
  }

  /** Two's-complement value of a 64-bit long long expression. */
  function Int64(x: int): int {
    var r := x % 0x1_0000_0000_0000_0000;
    if r < 0x8000_0000_0000_0000 then r else r - 0x1_0000_0000_0000_0000
  }

  /** Within range nothing changes; beyond it the value becomes smaller. */
  lemma Int32Facts(x: int)
    requires x >= 0
    ensures Int32(x) <= x && (Int32(x) == x <==> x <= INT_MAX)
    ensures x > INT_MAX ==> Int32(x) <= x - 0x1_0000_0000
  {}

  /** The same for 64 bits; up to twice the range the value wraps around once. */
  lemma Int64Facts(x: int)
    requires x >= 0
    ensures Int64(x) <= x && (Int64(x) == x <==> x <= LLONG_MAX)
    ensures LLONG_MAX < x < 0x1_0000_0000_0000_0000 ==> Int64(x) == x - 0x1_0000_0000_0000_0000 < 0
  {}

  lemma Int64Same(x: int)
    requires -0x4000_0000_0000_0000 <= x <= LLONG_MAX
    ensures Int64(x) == x
  {}

  lemma MulMonotone(n: nat, a: int, c: int)
    requires a <= c
    ensures n * a <= n * c && n * (a + 1) == n * a + n
  {}

  lemma Division(n: nat, b: nat)
    requires b > 0
    ensures n == b * (n / b) + n % b
  {}

  /** Quotient and remainder are unique. */
  lemma RemainderUnique(q: nat, j: nat, b: nat)
    requires j < b
    ensures (b * q + j) % b == j
  {
    var n := b * q + j;
    var d := n / b - q;
    assert b * d + n % b == j;
    assert d >= 1 ==> b * d >= b;
    assert d <= -1 ==> b * d <= -1 * b;
  }

  lemma QuotientUnique(n: nat, q: nat, r: nat, b: nat)
    requires r < b && n == b * q + r
    ensures n / b == q && n % b == r
  {
    RemainderUnique(q, r, b);
    Division(n, b);
    assert b * (n / b) == b * q;
  }
}
