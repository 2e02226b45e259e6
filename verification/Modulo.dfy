/** Division by a divisor that is not a constant. */
module Modulo {

  lemma {:induction false} QuotientIs(a: int, n: int, q: int, r: int)
    requires 0 <= r < n && a == n * q + r
    ensures a / n == q && a % n == r
  {
    SameQuotient(n, a / n, a % n, q, r);
  }

  lemma {:induction false} SameQuotient(n: int, p: int, o: int, q: int, r: int)
    requires 0 <= o < n && 0 <= r < n && n * p + o == n * q + r
    ensures p == q && o == r
  {
    var d := p - q;
    assert n * d == r - o;
    MultipleAtLeast(n, d);
  }

  lemma {:induction false} MultipleAtLeast(n: int, d: int)
    requires 0 < n
    ensures 0 < d ==> n <= n * d
    ensures d < 0 ==> n * d <= -n
  {
    if 0 < d {
      ProductOfNaturals(n, d - 1);
      assert n * d == n * (d - 1) + n;
    } else if d < 0 {
      ProductOfNaturals(n, -d - 1);
      assert n * d == -(n * (-d - 1)) - n;
    }
  }

  lemma {:induction false} ProductOfNaturals(a: nat, b: nat)
    ensures 0 <= a * b
  {
  }
}
