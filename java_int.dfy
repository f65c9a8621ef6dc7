/** Java's 32-bit `int` arithmetic, written out over Dafny's unbounded integers. */
module JavaInt {

  const MIN: int := -0x8000_0000
  const MAX: int := 0x7fff_ffff
  /** Number of distinct 32-bit values: arithmetic wraps modulo this. */
  const MODULUS: int := 0x1_0000_0000

  type Int32 = x: int | MIN <= x <= MAX

  /** A non-negative `int`, as bitmap dimensions are. */
  type Dim = x: int | 0 <= x <= MAX

  /**
   * Two's-complement wrap-around of a mathematical integer into `int`: the
   * value is shifted by 2^32 until it lies in range.
   */
  function Wrap(x: int): (r: Int32)
    ensures MIN <= x <= MAX ==> r == x
    decreases if x > MAX then x - MAX else if x < MIN then MIN - x else 0
  {
    if x > MAX then Wrap(x - MODULUS)
    else if x < MIN then Wrap(x + MODULUS)
    else x
  }

  /** Java `a - b`. */
  function Sub(a: Int32, b: Int32): (r: Int32)
    ensures MIN <= a - b <= MAX ==> r == a - b
  {
    Wrap(a - b)
  }

  /** Java `a * b`. */
  function Mul(a: Int32, b: Int32): (r: Int32)
    ensures MIN <= a * b <= MAX ==> r == a * b
  {
    Wrap(a * b)
  }

  /** Java `a / b`: truncates toward zero; `MIN / -1` overflows and wraps back to `MIN`. */
  function Div(a: Int32, b: Int32): (r: Int32)
    requires b != 0
    ensures 0 <= a && 0 < b ==> r == a / b
    ensures a < 0 && 0 < b ==> r == -((0 - a as int) / b)
  {
    var q: int := if a < 0 then 0 - a as int else a;
    var d: int := if b < 0 then 0 - b as int else b;
    assert 0 <= q / d <= q by { QuotientBounds(q, d); }
    if (a < 0) != (b < 0) then -(q / d)
    else if q / d > MAX then MIN
    else q / d
  }

  /** A quotient of non-negative numbers is no larger than its dividend. */
  lemma QuotientBounds(q: int, d: int)
    requires 0 <= q && 1 <= d
    ensures 0 <= q / d <= q
  {
  }

  /** `Math.max(a, b)`. */
  function Max(a: Int32, b: Int32): (r: Int32)
    ensures r >= a && r >= b
    ensures r == a || r == b
  {
    if a >= b then a else b
  }

  /** Java `int` arithmetic is arithmetic modulo 2^32: `Wrap(x)` is congruent to `x`. */
  lemma {:induction false} WrapIsCongruent(x: int)
    ensures (x - Wrap(x)) % MODULUS == 0
    decreases if x > MAX then x - MAX else if x < MIN then MIN - x else 0
  {
    if x > MAX {
      WrapIsCongruent(x - MODULUS);
    } else if x < MIN {
      WrapIsCongruent(x + MODULUS);
    }
  }

  /** The one `int` congruent to `x` modulo 2^32 is `Wrap(x)`. */
  lemma WrapUnique(x: int, r: int)
    requires MIN <= r <= MAX && (x - r) % MODULUS == 0
    ensures Wrap(x) == r
  {
    WrapIsCongruent(x);
  }

  /** Java `(h - a) - (h - b) == b - a` for every triple of `int`s, overflow or not. */
  lemma SubOfDifferences(h: Int32, a: Int32, b: Int32)
    ensures Sub(Sub(h, a), Sub(h, b)) == Sub(b, a)
  {
  }

  /** Java `h - (h - x) == x` for every pair of `int`s, overflow or not. */
  lemma SubSubCancels(h: Int32, x: Int32)
    ensures Sub(h, Sub(h, x)) == x
  {
  }
}
