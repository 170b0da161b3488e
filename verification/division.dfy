/** Facts about whole-number division. */
module Division {

  lemma Grows(d: nat, a: nat, b: nat)
    ensures a < b ==> d * a + d <= d * b
  {
    assert b - a >= 1 ==> d * (b - a) >= d;
    assert d * (b - a) == d * b - d * a;
  }

  lemma QuotientIs(n: nat, d: nat, q: nat, r: nat)
    requires r < d && n == d * q + r
    ensures n / d == q && n % d == r
  {
    var q' := n / d;
    Grows(d, q', q);
    Grows(d, q, q');
  }

  lemma QuotientAndRest(n: nat, d: nat)
    requires d > 0
    ensures n == d * (n / d) + n % d && n % d < d
  {}

  lemma DivideTwice(n: nat, c: nat, b: nat)
    requires b > 0 && c > 0
    ensures c * b > 0 && n / c / b == n / (c * b)
  {
    QuotientAndRest(n, c);
    QuotientAndRest(n / c, b);
    TwoQuotients(n, c, b, n / c, n % c, n / c / b, n / c % b);
  }

  lemma TwoQuotients(n: nat, c: nat, b: nat, m: nat, e: nat, q: nat, r: nat)
    requires n == c * m + e && e < c && m == b * q + r && r < b
    ensures c * b > 0 && n / (c * b) == q
  {
    Grows(c, r, b);
    Regroup(c, b, q, r);
    QuotientIs(n, c * b, q, c * r + e);
  }

  lemma Regroup(c: nat, b: nat, q: nat, r: nat)
    ensures c * (b * q + r) == c * b * q + c * r
  {}
}
