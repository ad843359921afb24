// The few facts about products and quotients that placement and share arithmetic need.
module Products {

  lemma ProductStep(factor: nat, a: nat, b: nat)
    ensures a < b ==> (a + 1) * factor <= b * factor
    ensures a <= b ==> a * factor <= b * factor
  {
  }

  lemma Quotient(x: nat, d: nat)
    requires d > 0
    ensures x == (x / d) * d + x % d && x % d < d
  {
  }

  lemma QuotientUnique(factor: nat, q: nat, r: nat, q': nat, r': nat)
    requires r < factor && r' < factor && q * factor + r == q' * factor + r'
    ensures q == q' && r == r'
  {
    ProductStep(factor, q, q');
    ProductStep(factor, q', q);
  }

  lemma QuotientBelow(factor: nat, n: nat, d: nat)
    requires factor > 0 && n < d * factor
    ensures n / factor < d && n == (n / factor) * factor + n % factor
  {
    ProductStep(factor, d, n / factor);
  }

  lemma QuotientOf(factor: nat, q: nat, r: nat)
    requires r < factor
    ensures (q * factor + r) / factor == q && (q * factor + r) % factor == r
  {
    var n := q * factor + r;
    Quotient(n, factor);
    QuotientUnique(factor, n / factor, n % factor, q, r);
  }

  lemma Distribute(a: nat, b: nat, c: nat)
    ensures (a + b) * c == a * c + b * c
  {
  }

  lemma CancelFactor(a: nat, b: nat, c: nat)
    requires c > 0 && a * c <= b * c
    ensures a <= b
  {
    ProductStep(c, b, a);
    Distribute(b, 1, c);
  }
}
