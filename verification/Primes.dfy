/** Trial division up to num / i. */
module Primes {
  import opened Arithmetic

  predicate Prime(n: int) {
    n >= 2 && forall d | 2 <= d < n :: n % d != 0
  }

  lemma QuotientBounds(n: nat, d: nat)
    requires d > 0
    ensures n / d * d <= n < n / d * d + d
  {
  }

  /** A proper divisor has a partner, and the two multiply to the number. */
  lemma Partner(n: nat, d: nat) returns (q: nat)
    requires 2 <= d < n && n % d == 0
    ensures 2 <= q < n && q * d == n && n % q == 0
  {
    q := n / d;
    assert q * d == n;
    MulMono(q, 1, d);
    MulMono(2, d, q);
    assert n == d * q + 0;
    ModUnique(n, q, d, 0);
  }

  /** With every candidate up to the square root ruled out, nothing larger divides either. */
  lemma SmallestFactorIsSmall(n: nat, i: nat)
    requires 2 <= i && n / i < i
    requires forall d | 2 <= d < i :: n % d != 0
    ensures forall d | 2 <= d < n :: n % d != 0
  {
    QuotientBounds(n, i);
    MulMono(n / i, i - 1, i);
    assert n < i * i;
    forall d | 2 <= d < n
      ensures n % d != 0
    {
      NoLargerFactor(n, i, d);
    }
  }

  lemma NoLargerFactor(n: nat, i: nat, d: nat)
    requires 2 <= d < n < i * i
    requires forall e | 2 <= e < i :: n % e != 0
    ensures n % d != 0
  {
    if n % d == 0 {
      var q := Partner(n, d);
      MulMono(i, q, d);
      MulMono(i, d, i);
    }
  }

  method IsPrime(num: int) returns (r: int)
    ensures r == if Prime(num) then 1 else 0
  {
    if num <= 1 {
      return 0;
    }
    if num == 2 || num == 3 {
      return 1;
    }
    var i := 2;
    while i <= num / i
      invariant 2 <= i <= num
      invariant forall d | 2 <= d < i :: num % d != 0
      decreases num - i
    {
      QuotientBounds(num, i);
      if num % i == 0 {
        SquareIsLarger(num, i);
        return 0;
      }
      SquareIsLarger(num, i);
      i := i + 1;
    }
    SmallestFactorIsSmall(num, i);
    return 1;
  }

  lemma SquareIsLarger(n: nat, i: nat)
    requires 2 <= i <= n / i
    ensures i < n
  {
    QuotientBounds(n, i);
    MulMono(2, n / i, i);
  }
}
