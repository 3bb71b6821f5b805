// Multiples and quotients of natural numbers.
module Division {

  lemma NextMultiple(k: int, l: int)
    ensures (k + 1) * l == k * l + l
  {}

  lemma Scaled(a: int, b: int, l: int)
    requires l >= 0 && a <= b
    ensures a * l <= b * l
  {}

  lemma Ordered(a: int, b: int, l: int)
    requires l > 0 && a * l < b * l
    ensures a < b
  {
    if b <= a {
      Scaled(b, a, l);
    }
  }

  lemma PagesBefore(n: nat, l: nat, k: nat)
    requires l > 0 && k * l <= n
    ensures k <= n / l
  {
    var q := n / l;
    assert q * l + n % l == n;
    NextMultiple(q, l);
    Ordered(k, q + 1, l);
  }

  lemma QuotientIs(n: nat, l: nat, k: nat)
    requires l > 0 && k * l <= n < k * l + l
    ensures n / l == k
  {
    PagesBefore(n, l, k);
    var q := n / l;
    assert q * l + n % l == n;
    NextMultiple(k, l);
    Ordered(q, k + 1, l);
  }
}
