/** Bytes, and the few facts about quotients that several components need. */
module Division {

  type byte = x: int | 0 <= x < 256

  lemma {:induction false} TimesMonotone(a: int, b: int, c: nat)
    requires a <= b
    ensures a * c <= b * c
    decreases c
  {
    if c > 0 {
      TimesMonotone(a, b, c - 1);
      assert a * c == a * (c - 1) + a && b * c == b * (c - 1) + b;
    }
  }

  lemma Divided(n: nat, m: nat)
    requires m > 0
    ensures n / m >= 0 && n == n / m * m + n % m && 0 <= n % m < m
  {
  }

  /** A quotient is known by the interval its number lies in. */
  lemma Quotient(n: int, q: int, m: int)
    requires m > 0
    ensures n / m == q <==> q * m <= n < q * m + m
  {
    var d := n / m;
    assert n == d * m + n % m;
    if d < q {
      TimesMonotone(d + 1, q, m);
      assert (d + 1) * m == d * m + m;
    } else if d > q {
      TimesMonotone(q + 1, d, m);
      assert (q + 1) * m == q * m + m;
    }
  }

  lemma Unique(n: nat, q: nat, r: nat, m: nat)
    requires m > 0 && n == q * m + r && r < m
    ensures n % m == r && n / m == q
  {
    Quotient(n, q, m);
    Divided(n, m);
  }
}
