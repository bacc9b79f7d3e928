// The integer square root and the prime search that pick the sampling step.

module Primes {
  import opened Arithmetic

  predicate Divides(d: nat, n: nat) {
    d > 0 && n % d == 0
  }

  ghost predicate Prime(n: nat) {
    n >= 2 && forall d: nat :: Divides(d, n) ==> d == 1 || d == n
  }

  ghost predicate NoDivisorBelow(n: nat, i: nat) {
    forall d: nat :: 1 < d < i ==> !Divides(d, n)
  }

  // Subtracts the odd numbers in turn.
  method Sqrti(num: nat) returns (s: nat)
    ensures s * s <= num < (s + 1) * (s + 1)
  {
    s := 0;
    var rest := num;
    while rest >= 2 * s + 1
      invariant rest >= 0 && s * s + rest == num
    {
      rest := rest - (2 * s + 1);
      s := s + 1;
    }
  }

  // Numbers up to 3 count as prime, 0 and 1 included; above, the test is exact.
  method IsPrime(num: nat) returns (prime: bool)
    ensures prime <==> num <= 1 || Prime(num)
  {
    hide Prime, Divides, NoDivisorBelow;
    if num <= 3 {
      SmallPrimes();
      return true;
    }
    if num % 2 == 0 {
      NotPrime(num, 2);
      return false;
    }
    var limit := Sqrti(num);
    var i := 3;
    FirstOdd(num);
    while i <= limit
      invariant i % 2 == 1 && i >= 3 && NoDivisorBelow(num, i)
    {
      if num % i == 0 {
        SquareBelow(i, limit, num);
        NotPrime(num, i);
        return false;
      }
      NextOdd(num, i);
      i := i + 2;
    }
    Narrow(num, i, limit + 1);
    NoSmallDivisor(num, limit);
    return true;
  }

  lemma Narrow(n: nat, i: nat, k: nat)
    requires NoDivisorBelow(n, i) && k <= i
    ensures NoDivisorBelow(n, k)
  {
  }

  lemma FirstOdd(n: nat)
    requires n % 2 == 1
    ensures NoDivisorBelow(n, 3)
  {
    EvenDivisor(2, n);
  }

  lemma NextOdd(n: nat, i: nat)
    requires NoDivisorBelow(n, i) && n % 2 == 1 && i % 2 == 1 && i >= 3 && n % i != 0
    ensures NoDivisorBelow(n, i + 2)
  {
    EvenDivisor(i + 1, n);
  }

  lemma SmallPrimes()
    ensures Prime(2) && Prime(3)
  {
    forall d: nat | Divides(d, 2) ensures d == 1 || d == 2 {
      DivisorBound(d, 2);
    }
    forall d: nat | Divides(d, 3) ensures d == 1 || d == 3 {
      DivisorBound(d, 3);
    }
  }

  lemma DivisorBound(d: nat, n: nat)
    requires n > 0
    ensures Divides(d, n) ==> d <= n
  {
    if d > n {
      assert n % d == n;
    }
  }

  lemma NotPrime(n: nat, d: nat)
    requires 1 < d < n && n % d == 0
    ensures !Prime(n)
  {
    assert Divides(d, n);
  }

  lemma SquareBelow(i: nat, limit: nat, n: nat)
    requires 1 < i <= limit && limit * limit <= n
    ensures i < n
  {
    MulMono(i, limit, limit);
    MulMono(2, limit, i);
  }

  // Even numbers divide even ones only.
  lemma EvenDivisor(d: nat, n: nat)
    requires d % 2 == 0
    ensures Divides(d, n) ==> n % 2 == 0
  {
    if Divides(d, n) {
      var q := n / d;
      assert n == d * q;
      var h := d / 2;
      assert d == 2 * h;
      assert 2 * h * q == 2 * (h * q);
    }
  }

  // Of two factors one is at most the square root.
  lemma NoSmallDivisor(n: nat, limit: nat)
    requires n > 3 && n < (limit + 1) * (limit + 1)
    requires NoDivisorBelow(n, limit + 1)
    ensures Prime(n)
  {
    forall d: nat | Divides(d, n) ensures d == 1 || d == n {
      DivisorBound(d, n);
      if d != 1 && d != n {
        var q := n / d;
        Cofactor(d, n);
        assert q > limit && d > limit;
        MulMono(limit + 1, d, limit + 1);
        MulMono(limit + 1, q, d);
      }
    }
  }

  lemma AtMostOnce(q: nat, d: nat)
    ensures q <= 1 ==> q * d <= d
  {
  }

  lemma Cofactor(d: nat, n: nat)
    requires Divides(d, n) && 1 < d < n
    ensures n / d * d == n && 1 < n / d && Divides(n / d, n)
  {
    var q := n / d;
    assert n == q * d;
    AtMostOnce(q, d);
    DivUnique(n, q, d, 0);
  }

  // The greatest prime up to the limit; 1 and 0 are returned as they are.
  method GreatestPrime(limit: nat) returns (p: nat)
    ensures p <= limit && forall n: nat :: p < n <= limit ==> !Prime(n)
    ensures if limit >= 2 then Prime(p) else p == limit
  {
    SmallPrimes();
    p := limit;
    while p > 0
      invariant p <= limit && (limit >= 2 ==> p >= 2)
      invariant forall n: nat :: p < n <= limit ==> !Prime(n)
      invariant limit < 2 ==> p == limit
    {
      var prime := IsPrime(p);
      if prime {
        return;
      }
      p := p - 1;
    }
  }
}
