/** Division with remainder. */
module Arithmetic {

  lemma QuotientUnique(n: nat, m: nat, q: nat, r: nat)
    requires m >= 1 && n == q * m + r && r < m
    ensures n / m == q && n % m == r
  {
    var d := n / m - q;
    Products(n / m, q, m);
    assert n / m * m + n % m == n;
    assert d * m == r - n % m;
    AtLeastOnce(d, m);
  }

  lemma Products(a: int, b: int, m: int)
    ensures (a - b) * m == a * m - b * m
  {
  }

  lemma AtLeastOnce(d: int, m: int)
    requires m >= 0
    ensures d >= 1 ==> d * m >= m
    ensures d <= -1 ==> d * m <= -m
  {
  }

  lemma DivStep(n: nat, m: nat)
    requires 1 <= m <= n
    ensures n / m == (n - m) / m + 1
    ensures n % m == (n - m) % m
  {
    var q, r := (n - m) / m, (n - m) % m;
    assert n - m == q * m + r;
    Products(q + 1, 1, m);
    QuotientUnique(n, m, q + 1, r);
  }
}
