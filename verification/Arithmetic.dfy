/** Facts about products, quotients and remainders that the solver does not find unaided. */
module Arithmetic {

  function Power(b: nat, k: nat): (p: nat)
    ensures b > 0 ==> p > 0
  {
    if k == 0 then 1 else b * Power(b, k - 1)
  }

  lemma DivDiv(n: int, a: nat, b: nat)
    requires a > 0 && b > 0
    ensures a * b > 0 && n / a / b == n / (a * b)
  {
    var m := n / a;
    var q, r := m / b, m % b;
    assert n == a * m + n % a && m == b * q + r;
    DistributeTwice(a, b, q, r);
    ProductAtMost(a, r, b - 1);
    ProductPositive(a, b);
    DivModUnique(n, a * b, q, a * r + n % a);
  }

  lemma DistributeTwice(a: int, b: int, q: int, r: int)
    ensures a * (b * q + r) == (a * b) * q + a * r
    ensures a * (b - 1) == a * b - a
  {
  }

  lemma ProductAtMost(a: nat, r: int, s: int)
    requires 0 <= r <= s
    ensures 0 <= a * r <= a * s
  {
  }

  lemma ProductPositive(a: nat, b: nat)
    requires a > 0 && b > 0
    ensures a * b > 0
  {
  }

  lemma HalveMod(n: nat, p: nat)
    requires p > 0
    ensures n % (2 * p) == n % 2 + 2 * ((n / 2) % p)
  {
    var h := n / 2;
    assert n == n % 2 + 2 * h && h == p * (h / p) + h % p;
    var r := n % 2 + 2 * (h % p);
    assert 2 * (p * (h / p)) == (2 * p) * (h / p);
    assert n == (2 * p) * (h / p) + r && 0 <= r < 2 * p;
    DivModUnique(n, 2 * p, h / p, r);
  }

  lemma DivModUnique(n: int, d: int, q: int, r: int)
    requires d > 0 && n == d * q + r && 0 <= r < d
    ensures n / d == q && n % d == r
  {
    var e := n / d - q;
    assert d * (n / d) == d * q + d * e;
    MultipleOutsideRange(d, e);
  }

  lemma MultipleOutsideRange(d: int, e: int)
    requires d > 0
    ensures e >= 1 ==> d * e >= d
    ensures e <= -1 ==> d * e <= -d
  {
  }

  lemma ModAtMost(t: nat, d: nat)
    requires d > 0
    ensures t % d <= t
  {
    assert t == d * (t / d) + t % d;
    ProductNonNegative(d, t / d);
  }

  lemma ProductNonNegative(d: nat, q: nat)
    ensures d * q >= 0
  {
  }

  /** Adding to both sides keeps, and reflects, congruence. */
  lemma ModShift(g: nat, h: nat, m: nat, n: nat)
    requires g > 0
    ensures m % g == n % g <==> (m + h) % g == (n + h) % g
  {
    var k := (m / g - n / g) - ((m + h) / g - (n + h) / g);
    var d := ((m + h) % g - (n + h) % g) - (m % g - n % g);
    assert m == g * (m / g) + m % g && n == g * (n / g) + n % g;
    assert m + h == g * ((m + h) / g) + (m + h) % g && n + h == g * ((n + h) / g) + (n + h) % g;
    assert d == g * k;
    MultipleOutsideRange(g, k);
  }

  /** Division and remainder of a successor. */
  lemma DivModNext(g: nat, n: nat)
    requires g > 0
    ensures if n % g == g - 1 then (n + 1) / g == n / g + 1 && (n + 1) % g == 0
            else (n + 1) / g == n / g && (n + 1) % g == n % g + 1
  {
    assert n == g * (n / g) + n % g;
    if n % g == g - 1 {
      DivModUnique(n + 1, g, n / g + 1, 0);
    } else {
      DivModUnique(n + 1, g, n / g, n % g + 1);
    }
  }

  lemma ProductAssociates(a: int, b: int, c: int)
    ensures a * b * c == a * (b * c)
  {
  }

  lemma MultipleMod(q: int, d: nat)
    requires d > 0
    ensures q * d % d == 0 && q * d / d == q
  {
    DivModUnique(q * d, d, q, 0);
  }

  /** A multiple of a product is a multiple of its factor. */
  lemma CoarserMultiple(n: int, a: nat, d: nat)
    requires a > 0 && d > 0 && n % (a * d) == 0
    ensures a * d > 0 && n % d == 0 && n / d % a == 0
  {
    ProductPositive(a, d);
    var q := n / (a * d);
    assert n == (a * d) * q;
    assert (a * d) * q == d * (a * q);
    DivModUnique(n, d, a * q, 0);
    DivModUnique(a * q, a, q, 0);
  }

  lemma SumOfMultiples(m: int, n: int, d: nat)
    requires d > 0 && m % d == 0 && n % d == 0
    ensures (m + n) % d == 0 && (m + n) / d == m / d + n / d
  {
    assert m == d * (m / d) && n == d * (n / d);
    assert d * (m / d) + d * (n / d) == d * (m / d + n / d);
    DivModUnique(m + n, d, m / d + n / d, 0);
  }
}
