/** Facts about products and quotients that the solver is not left to find. */
module NonLinear {

  lemma Distribute(a: int, b: int, c: int)
    ensures (a + b) * c == a * c + b * c
    ensures c * (a + b) == c * a + c * b
  {
  }

  lemma ProductMonotone(a: int, b: int, c: int, d: int)
    requires 0 <= a <= b && 0 <= c <= d
    ensures 0 <= a * c <= b * d
  {
    Distribute(a, b - a, c);
    Distribute(c, d - c, b);
  }

  lemma QuotientBounds(n: int, d: int)
    requires n >= 0 && d > 0
    ensures 0 <= n / d <= n
    ensures n / d * d <= n < n / d * d + d
    ensures n / d * d + n % d == n && 0 <= n % d < d
  {
    var q := n / d;
    if q > 0 { ProductMonotone(q, q, 1, d); }
  }

  /** The quotient is the only integer whose multiple lands within one divisor of n. */
  lemma QuotientUnique(n: int, d: int, q: int)
    requires d > 0 && q * d <= n < q * d + d
    ensures n / d == q
  {
    var k := n / d;
    var r := n % d;
    assert n == k * d + r;
    Distribute(q, k - q, d);
    if k < q {
      ProductMonotone(1, q - k, d, d);
      Distribute(k, q - k, d);
    } else if k > q {
      ProductMonotone(1, k - q, d, d);
    }
  }

  lemma Associate(a: int, b: int, c: int)
    ensures (a * b) * c == a * (b * c)
    ensures a * b == b * a
  {
  }

  lemma QuotientNested(n: int, a: int, b: int)
    requires n >= 0 && a > 0 && b > 0
    ensures a * b > 0 && n / a / b == n / (a * b)
  {
    QuotientBounds(n, a);
    var p, r := n / a, n % a;
    QuotientBounds(p, b);
    var q, t := p / b, p % b;
    ProductMonotone(1, a, 1, b);
    Distribute(q * b, t, a);
    Associate(q, b, a);
    Associate(a, b, 0);
    ProductMonotone(t, b - 1, a, a);
    Distribute(b, -1, a);
    QuotientUnique(n, a * b, q);
  }
}
