/** Facts about products, quotients and finite sets of numbers, over plain variables. */
module Arithmetic {

  function ProductOf(a: nat, b: nat): nat { a * b }

  function Quotient(n: nat, d: nat): (q: nat)
    requires d > 0
    ensures q == n / d && q * d <= n < (q + 1) * d
  {
    QuotientFacts(n, d);
    TimesNext(n / d, d);
    n / d
  }

  lemma QuotientFacts(n: nat, d: nat)
    requires d > 0
    ensures n / d >= 0 && 0 <= n % d < d && n == d * (n / d) + n % d
  {
  }

  lemma Commutes(a: int, b: int)
    ensures a * b == b * a
  {
  }

  lemma TimesNext(a: int, d: int)
    ensures (a + 1) * d == a * d + d && a * d == d * a && (a + 1) * d == d * (a + 1)
  {
  }

  lemma TimesMonotone(a: nat, b: nat, d: nat)
    requires a <= b
    ensures a * d <= b * d && d * a <= d * b
  {
  }

  /** A multiple of k that small is zero. */
  lemma SmallMultiple(k: int, c: int, d: int)
    requires k * c == d && 0 - k < d < k
    ensures c == 0
  {
  }

  /** Quotient and remainder are determined by the division identity. */
  lemma DivModUnique(m: nat, k: nat, n: nat, r: nat)
    requires k > 0 && m == k * n + r && r < k
    ensures m / k == n && m % k == r
  {
    QuotientFacts(m, k);
    var a, b := m / k, m % k;
    Difference(k, n, a);
    SmallMultiple(k, n - a, b - r);
  }

  lemma Difference(k: int, a: int, b: int)
    ensures k * (a - b) == k * a - k * b
  {
  }

  lemma QuotientMonotone(a: nat, b: nat, d: nat)
    requires d > 0 && a <= b
    ensures Quotient(a, d) <= Quotient(b, d)
  {
    QuotientReaches(b, d, Quotient(a, d));
  }

  /** A quotient reaches k exactly when the dividend reaches k times the divisor. */
  lemma QuotientReaches(n: nat, d: nat, k: nat)
    requires d > 0
    ensures Quotient(n, d) >= k <==> n >= d * k
  {
    QuotientFacts(n, d);
    ReachesAt(n, d, Quotient(n, d), n % d, k);
  }

  lemma ReachesAt(n: nat, d: nat, q: nat, r: nat, k: nat)
    requires n == d * q + r && r < d
    ensures q >= k <==> n >= d * k
  {
    TimesNext(q, d);
    if q >= k { TimesMonotone(k, q, d); } else { TimesMonotone(q + 1, k, d); }
  }

  /** A finite set of numbers below n has at most n members. */
  lemma {:induction false} BelowIsSmall(s: set<nat>, n: nat)
    requires forall x :: x in s ==> x < n
    ensures |s| <= n
    decreases n
  {
    if n > 0 { BelowIsSmall(s - {n - 1}, n - 1); } else { assert s == {}; }
  }

  lemma SubsetSize<T>(a: set<T>, b: set<T>)
    requires a <= b
    ensures |a| <= |b|
  {
    assert b == a + (b - a);
  }
}
