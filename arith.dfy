/** Facts about Dafny's `%` with a positive divisor, which agrees there
    with Python's `%`. */
module Arith {
  lemma MulAtLeast(a: int, n: int)
    requires a >= 1 && n > 0
    ensures a * n >= n
  {
  }

  /** `x % n` is the remainder of any division of `x` by `n`. */
  lemma ModUnique(x: int, n: int, q: int, r: int)
    requires 0 < n && 0 <= r < n && x == q * n + r
    ensures x % n == r
  {
    var q', r' := x / n, x % n;
    assert (q - q') * n == r' - r;
    if q > q' {
      MulAtLeast(q - q', n);
    } else if q < q' {
      MulAtLeast(q' - q, n);
    }
  }

  lemma ShiftMod(f: int, n: int)
    requires 0 < n
    ensures (f + n) % n == f % n
  {
    ModUnique(f + n, n, f / n + 1, f % n);
  }

  /** Incrementing and then reducing modulo `n` follows the count. */
  lemma NextMod(f: int, n: int)
    requires 0 < n
    ensures (f % n + 1) % n == (f + 1) % n
  {
    if f % n + 1 < n {
      ModUnique(f + 1, n, f / n, f % n + 1);
      ModUnique(f % n + 1, n, 0, f % n + 1);
    } else {
      ModUnique(f + 1, n, f / n + 1, 0);
      ModUnique(f % n + 1, n, 1, 0);
    }
  }

  /** `(i + 1) % n` for an index `i` already below `n`. */
  lemma IncMod(i: int, n: int)
    requires 0 <= i < n
    ensures (i + 1) % n == if i + 1 == n then 0 else i + 1
  {
    if i + 1 == n {
      ModUnique(i + 1, n, 1, 0);
    }
  }

  /** What `%` takes away is a multiple of the divisor. */
  lemma ModDifference(x: int, n: int)
    requires n > 0
    ensures (x - x % n) % n == 0
  {
    ModUnique(x - x % n, n, x / n, 0);
  }
}
