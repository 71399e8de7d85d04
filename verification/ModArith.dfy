/** The few facts about integer division and remainders that the scalar arithmetic needs. */
module ModArith {

  lemma MulAtLeast(a: int, n: nat)
    requires a >= 1
    ensures a * n >= n
  {
    assert a * n == (a - 1) * n + n;
  }

  lemma Distribute(a: int, b: int, n: int)
    ensures (a + b) * n == a * n + b * n
    ensures (a - b) * n == a * n - b * n
  {}

  lemma QuotientUnique(q: int, r: int, q': int, r': int, n: nat)
    requires 0 <= r < n && 0 <= r' < n
    requires q * n + r == q' * n + r'
    ensures q == q' && r == r'
  {
    Distribute(q, q', n);
    Distribute(q', q, n);
    if q > q' { MulAtLeast(q - q', n); }
    if q < q' { MulAtLeast(q' - q, n); }
  }

  /** Adding a multiple of n does not change the remainder. */
  lemma ModAddMultiple(a: int, q: int, n: nat)
    requires n > 0
    ensures (a + q * n) % n == a % n
  {
    var b := a + q * n;
    assert a == (a / n) * n + a % n;
    assert b == (b / n) * n + b % n;
    Distribute(a / n, q, n);
    QuotientUnique(b / n, b % n, a / n + q, a % n, n);
  }

  lemma ModSmall(a: nat, n: nat)
    requires a < n
    ensures a % n == a
  {}

  /** A summand may be reduced first. */
  lemma ModShift(a: int, b: int, n: nat)
    requires n > 0
    ensures (a % n + b) % n == (a + b) % n
  {
    ModAddMultiple(a % n + b, a / n, n);
    assert a == (a / n) * n + a % n;
  }
}
