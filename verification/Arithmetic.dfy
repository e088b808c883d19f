/** Facts about products and quotients that the solver does not find by itself. */
module Arithmetic {

  lemma {:induction false} MultiplyOrder(a: int, b: int, size: nat)
    requires size > 0
    ensures a < b <==> a * size < b * size
  {
    if a < b { assert (b - a) * size > 0; } else { assert (a - b) * size >= 0; }
  }

  lemma {:induction false} Quotient(q: int, size: nat)
    requires size > 0
    ensures q * size / size == q && q * size % size == 0
  {
    var d, m := q * size / size, q * size % size;
    assert q * size == d * size + m;
    MultiplyOrder(d - 1, q, size);
    MultiplyOrder(q, d + 1, size);
    MultiplyOrder(d, q, size);
    MultiplyOrder(q, d, size);
    assert (d + 1) * size == d * size + size;
  }

  lemma {:induction false} UniqueQuotient(n: nat, d: nat, q: nat, r: nat)
    requires d > 0 && r < d && n == q * d + r
    ensures n / d == q
  {
    var q' := n / d;
    assert n == q' * d + n % d;
    assert (q + 1) * d == q * d + d && (q' + 1) * d == q' * d + d;
    MultiplyOrder(q, q' + 1, d);
    MultiplyOrder(q', q + 1, d);
  }

  lemma {:induction false} Regrouped(q: int, r: int, t: int, a: int, b: int)
    ensures (q * b + r) * a + t == q * (a * b) + (r * a + t)
  {
  }

  lemma {:induction false} RemainderFits(r: nat, t: nat, a: nat, b: nat)
    requires r < b && t < a
    ensures 0 <= r * a + t < a * b
  {
    assert (r + 1) * a <= b * a;
  }

  lemma {:induction false} QuotientOfProduct(n: nat, a: nat, b: nat, m: nat, t: nat, q: nat, r: nat)
    requires t < a && r < b && n == m * a + t && m == q * b + r
    ensures a * b > 0 && n / (a * b) == q
  {
    RemainderFits(r, t, a, b);
    Regrouped(q, r, t, a, b);
    UniqueQuotient(n, a * b, q, r * a + t);
  }

  /** Dividing twice is dividing by the product. */
  lemma {:induction false} DivideTwice(n: nat, a: nat, b: nat)
    requires a > 0 && b > 0
    ensures a * b > 0 && n / a / b == n / (a * b)
  {
    var m := n / a;
    QuotientOfProduct(n, a, b, m, n % a, m / b, m % b);
  }
}
