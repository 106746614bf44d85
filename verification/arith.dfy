/** Integer facts the grid arithmetic of the puzzle needs, and Java's integer division. */
module Arith {

  function Abs(x: int): nat
  {
    if x < 0 then -x else x
  }

  /** Java's `/` on `int`: the quotient is truncated toward zero. */
  function JavaDiv(a: int, d: int): int
    requires d > 0
  {
    if a >= 0 then a / d else -((-a) / d)
  }

  /** Java's `%` on `int`: the remainder takes the sign of the dividend. */
  function JavaRem(a: int, d: int): int
    requires d > 0
  {
    a - d * JavaDiv(a, d)
  }

  lemma MulLeftMono(a: int, b: int, n: int)
    requires a <= b && n >= 0
    ensures a * n <= b * n
  {
    assert b * n - a * n == (b - a) * n;
  }

  /** Quotient and remainder are unique: the decomposition `q * n + r` with `0 <= r < n` is Euclidean division. */
  lemma DivModUnique(a: int, n: int, q: int, r: int)
    requires n > 0 && 0 <= r < n && a == q * n + r
    ensures a / n == q && a % n == r
  {
    var q' := a / n;
    var r' := a % n;
    assert a == q' * n + r';
    assert (q - q') * n == r' - r;
    if q - q' >= 1 {
      MulLeftMono(1, q - q', n);
    } else if q - q' <= -1 {
      MulLeftMono(q - q', -1, n);
    }
  }

  /** For a non-negative dividend Java's division and remainder agree with Dafny's. */
  lemma JavaDivNonNegative(a: int, d: int)
    requires d > 0 && a >= 0
    ensures JavaDiv(a, d) == a / d && JavaRem(a, d) == a % d
  {
  }
}
