/** Products and quotients of integers, one small step at a time. */
module Arithmetic {

  lemma MulNonneg(a: int, b: int)
    requires a >= 0 && b >= 0
    ensures a * b >= 0
  {}

  lemma MulLe(a: int, b: int, n: int)
    requires a <= b && n >= 0
    ensures a * n <= b * n
  {
    MulNonneg(b - a, n);
    assert (b - a) * n == b * n - a * n;
  }

  lemma MulLess(a: int, b: int, n: int)
    requires a < b && n >= 0
    ensures a * n + n <= b * n
  {
    MulLe(a + 1, b, n);
    assert (a + 1) * n == a * n + n;
  }

  lemma MulCancel(a: int, b: int, n: int)
    requires n > 0 && a * n <= b * n
    ensures a <= b
  {
    if b < a { MulLess(b, a, n); }
  }

  lemma MulCancelLess(a: int, b: int, n: int)
    requires n > 0 && a * n < b * n
    ensures a < b
  {
    if b <= a { MulLe(b, a, n); }
  }

  /** A multiple of d that is smaller than d. */
  lemma SmallMultiple(d: int, t: int)
    requires -d < t * d < d
    ensures t == 0
  {
    if t >= 1 { MulLe(1, t, d); }
    if t <= -1 { MulLe(t, -1, d); }
  }

  lemma Quotient(n: int, d: int, q: int, f: int)
    requires d > 0 && n == q * d + f && 0 <= f < d
    ensures n / d == q && n % d == f
  {
    var t := n / d - q;
    assert n == d * (n / d) + n % d;
    assert t * d == d * (n / d) - q * d;
    SmallMultiple(d, t);
  }

  lemma Multiple(t: int, n: int)
    requires n > 0
    ensures (t * n) % n == 0
  {
    Quotient(t * n, n, t, 0);
  }

  lemma MultipleAtLeast(a: int, n: int)
    requires n > 0 && a > 0 && a % n == 0
    ensures a >= n
  {}

  lemma SameRemainder(a: int, b: int, n: int)
    requires n > 0 && a % n == b % n
    ensures (a - b) % n == 0
  {
    assert a == n * (a / n) + a % n && b == n * (b / n) + b % n;
    assert a - b == (a / n - b / n) * n;
    Multiple(a / n - b / n, n);
  }

  lemma SumOfMultiples(a: int, b: int, n: int)
    requires n > 0 && a % n == 0 && b % n == 0
    ensures (a + b) % n == 0
  {
    assert a == n * (a / n) && b == n * (b / n);
    assert a + b == (a / n + b / n) * n;
    Multiple(a / n + b / n, n);
  }

  lemma BelowQuotient(n: int, room: int, d: int)
    requires d > 0
    ensures n * d + d <= room <==> n < room / d
  {
    var q := room / d;
    assert room == q * d + room % d;
    if n + 1 <= q { MulLess(n, q, d); } else { MulLe(q, n, d); }
  }
}
