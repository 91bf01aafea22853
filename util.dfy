/** Shared helpers: an optional value and the fixed-width unsigned integer
    arithmetic of the C sources (values are unbounded in Dafny, so every
    wrap-around is written out). */
module Util {

  datatype Option<T> = None | Some(value: T)

  const TWO_32: nat := 0x1_0000_0000
  const TWO_64: nat := 0x1_0000_0000_0000_0000

  type u32 = x: int | 0 <= x < TWO_32
  type u64 = x: int | 0 <= x < TWO_64

  /** `a + b` computed in uint32_t. */
  function Add32(a: u32, b: u32): (r: u32)
    ensures a + b < TWO_32 ==> r == a + b
    ensures a + b >= TWO_32 ==> r == a + b - TWO_32
  {
    (a + b) % TWO_32
  }

  /** `a + b` computed in uint64_t. */
  function Add64(a: u64, b: u64): (r: u64)
    ensures a + b < TWO_64 ==> r == a + b
    ensures a + b >= TWO_64 ==> r == a + b - TWO_64
  {
    (a + b) % TWO_64
  }

  /** `a - b` computed in uint64_t. */
  function Sub64(a: u64, b: u64): (r: u64)
    ensures b <= a ==> r == a - b
    ensures a < b ==> r == a - b + TWO_64
  {
    (a - b) % TWO_64
  }

  /** `x & ~(m - 1)` for a power of two m: x rounded down to a multiple of m. */
  function AlignDown(x: nat, m: nat): (r: nat)
    requires m > 0
    ensures r % m == 0 && r <= x && x < r + m
  {
    MultipleMod(m, x / m);
    x - x % m
  }

  /** m * q is a multiple of m. */
  lemma MultipleMod(m: nat, q: nat)
    requires m > 0
    ensures (m * q) % m == 0
  {
    var r := m * q;
    var k := q - r / m;
    assert r % m == m * k by {
      assert r == m * (r / m) + r % m;
    }
  }

  /** x lies between the multiple of y that division gives and the next. */
  lemma DivBounds(x: nat, y: nat)
    requires y > 0
    ensures (x / y) * y <= x < (x / y) * y + y
  {
    assert x == (x / y) * y + x % y;
  }

  /** Two different multiples of y are at least y apart. */
  lemma MultipleGap(a: nat, b: nat, y: nat)
    requires y > 0 && a % y == 0 && b % y == 0 && b < a
    ensures b + y <= a
  {
    var qa, qb := a / y, b / y;
    assert a == y * qa;
    assert b == y * qb;
    var d := qa - qb;
    assert a - b == y * d;
    AtLeastOnce(y, d);
  }

  lemma AtLeastOnce(y: nat, d: int)
    requires y > 0 && y * d > 0
    ensures y * d >= y
  {
  }

  /** The difference of two multiples of q is one. */
  lemma MultipleDiff(a: nat, b: nat, q: nat)
    requires q > 0 && a % q == 0 && b % q == 0 && b <= a
    ensures (a - b) % q == 0
  {
    var x, y := a / q, b / q;
    assert a == q * x && b == q * y;
    assert a - b == q * (x - y);
    MultipleMod(q, x - y);
  }

  /** The sum of two multiples of q is one. */
  lemma MultipleSum(a: nat, b: nat, q: nat)
    requires q > 0 && a % q == 0 && b % q == 0
    ensures (a + b) % q == 0
  {
    var x, y := a / q, b / q;
    assert a == q * x && b == q * y;
    assert a + b == q * (x + y);
    MultipleMod(q, x + y);
  }

  function Pow2(k: nat): (r: nat)
    ensures r >= 1
  {
    if k == 0 then 1 else 2 * Pow2(k - 1)
  }

  lemma {:induction false} Pow2Sum(a: nat, b: nat)
    ensures Pow2(a + b) == Pow2(a) * Pow2(b)
    decreases a
  {
    if a > 0 {
      Pow2Sum(a - 1, b);
    }
  }

  function Max(a: int, b: int): int { if a < b then b else a }
  function Min(a: int, b: int): int { if a < b then a else b }
}
