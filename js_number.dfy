/** The two JavaScript number operations the engines and the playlist rely
    on, on integers and reals: `Math.trunc` and the `%` operator, whose
    result takes the sign of the dividend (unlike Dafny's `%`). */
module JsNumber {

  /** Math.trunc: rounds toward zero. */
  function Trunc(x: real): (r: int)
    ensures 0.0 <= x ==> r as real <= x < r as real + 1.0
    ensures x < 0.0 ==> r as real - 1.0 < x <= r as real
  {
    if x >= 0.0 then x.Floor else -((-x).Floor)
  }

  /** The JavaScript remainder `a % n` for a positive divisor: a mod n with
      the sign of a. */
  function Rem(a: int, n: int): (r: int)
    requires 0 < n
    ensures -n < r < n
    ensures 0 <= a ==> 0 <= r
    ensures a <= 0 ==> r <= 0
  {
    if a >= 0 then a % n else -((-a) % n)
  }

  /** For a non-negative dividend JavaScript and Dafny agree. */
  lemma {:induction false} RemOfNonNegative(a: int, n: int)
    requires 0 <= a && 0 < n
    ensures Rem(a, n) == a % n
  {
  }

  /** A non-negative dividend up to twice the divisor is the divisor
      subtracted at most twice. */
  lemma {:induction false} RemSmall(a: int, n: int)
    requires 0 < n && 0 <= a <= 2 * n
    ensures Rem(a, n) == if a < n then a else if a < 2 * n then a - n else 0
  {
    var q := a / n;
    assert a == q * n + a % n;
    assert (q >= 3 ==> q * n >= 3 * n) && (q == 2 ==> q * n == 2 * n) && (q == 1 ==> q * n == n);
    assert (q <= -1 ==> q * n <= -n) && (q == 0 ==> q * n == 0);
  }

  /** Dafny's remainder is the one m in [0, n) with a == k * n + m. */
  lemma {:induction false} ModUnique(a: int, n: int, k: int, m: int)
    requires 0 < n && 0 <= m < n && a == k * n + m
    ensures a % n == m
  {
    var q, r := a / n, a % n;
    assert a == q * n + r;
    assert (q - k) * n == m - r;
    assert (q - k >= 1 ==> (q - k) * n >= n) && (q - k <= -1 ==> (q - k) * n <= -n);
  }

  /** For a negative dividend they differ: JavaScript's remainder is Dafny's
      minus the divisor, unless both are 0 (-1 % 3 is -1, not 2). */
  lemma {:induction false} RemOfNegative(a: int, n: int)
    requires 0 < n && a < 0
    ensures Rem(a, n) == if a % n == 0 then 0 else a % n - n
  {
    var q, r := (-a) / n, (-a) % n;
    assert -a == q * n + r;
    if r == 0 {
      ModUnique(a, n, -q, 0);
    } else {
      ModUnique(a, n, -q - 1, n - r);
    }
  }

  /** An integral value is its own truncation. */
  lemma {:induction false} TruncOfInt(k: int)
    ensures Trunc(k as real) == k
  {
  }

  /** Shifting by one moves the truncated value by at most one, toward the
      shift, and exactly by one away from the interval (-1, 1). */
  lemma {:induction false} TruncStep(x: real)
    ensures Trunc(x) - 1 <= Trunc(x - 1.0) <= Trunc(x)
    ensures Trunc(x) <= Trunc(x + 1.0) <= Trunc(x) + 1
    ensures (x <= 0.0 || 1.0 <= x) ==> Trunc(x - 1.0) == Trunc(x) - 1
    ensures (x <= -1.0 || 0.0 <= x) ==> Trunc(x + 1.0) == Trunc(x) + 1
  {
    var t, tm, tp := Trunc(x), Trunc(x - 1.0), Trunc(x + 1.0);
  }
}
