/** Products and quotients by a positive number. */
module Arithmetic {
  type Positive = n: nat | 0 < n witness 1

  lemma MulSucc(k: nat, d: nat)
    ensures (k + 1) * d == k * d + d
  {
  }

  lemma {:induction false} MulGap(k: nat, q: nat, d: nat)
    requires k < q
    ensures k * d + d <= q * d
  {
    MulSucc(q - 1, d);
    if k < q - 1 {
      MulGap(k, q - 1, d);
    }
  }

  lemma QuotientIs(n: nat, d: Positive, q: nat, r: nat)
    requires n == q * d + r && r < d
    ensures n / d == q && n % d == r
  {
    var k := n / d;
    assert n == k * d + n % d;
    if k < q {
      MulGap(k, q, d);
    } else if q < k {
      MulGap(q, k, d);
    }
  }

  lemma AtMostQuotient(k: nat, d: Positive, n: nat)
    requires k * d <= n
    ensures k <= n / d
  {
    if n / d < k {
      MulGap(n / d, k, d);
    }
  }

  lemma NoQuotient(n: nat, d: Positive)
    ensures n / d == 0 <==> n < d
  {
    if n < d {
      QuotientIs(n, d, 0, n);
    } else {
      AtMostQuotient(1, d, n);
    }
  }

  lemma QuotientGrows(a: nat, b: nat, d: Positive)
    ensures a / d <= (a + b) / d
    ensures b >= d ==> a / d + 1 <= (a + b) / d
  {
    assert a == a / d * d + a % d;
    AtMostQuotient(a / d, d, a + b);
    if b >= d {
      MulSucc(a / d, d);
      AtMostQuotient(a / d + 1, d, a + b);
    }
  }

  /** Counting on by one. */
  lemma NextQuotient(n: nat, d: Positive)
    ensures if n % d + 1 == d then (n + 1) / d == n / d + 1 && (n + 1) % d == 0
            else (n + 1) / d == n / d && (n + 1) % d == n % d + 1
  {
    var q, r := n / d, n % d;
    if r + 1 == d {
      MulSucc(q, d);
      QuotientIs(n + 1, d, q + 1, 0);
    } else {
      QuotientIs(n + 1, d, q, r + 1);
    }
  }
}
