// Powers of two, bitwise or of natural numbers, and the facts about products, quotients and remainders that
// the other modules need: each is stated with its products named, so that a proof that uses it stays linear
// and does not depend on how the solver multiplies out the terms of a larger goal.

module Arithmetic {

  function Pow2(n: nat): (r: nat)
    ensures r > 0
  {
    if n == 0 then 1 else 2 * Pow2(n - 1)
  }

  lemma {:induction false} Pow2Add(a: nat, b: nat)
    ensures Pow2(a + b) == Pow2(a) * Pow2(b)
  {
    if a == 0 {
    } else {
      Pow2Add(a - 1, b);
      assert Pow2(a + b) == 2 * Pow2(a - 1 + b);
      MulAssoc(2, Pow2(a - 1), Pow2(b));
    }
  }

  lemma Pow2Zero()
    ensures Pow2(0) == 1
  {
  }

  lemma DoublePow(n: nat)
    ensures Pow2(n + 1) == 2 * Pow2(n)
  {
  }

  lemma MulAssoc(a: int, b: int, c: int)
    ensures a * (b * c) == (a * b) * c
  {
  }

  lemma {:induction false} Pow2Monotone(a: nat, b: nat)
    requires a <= b
    ensures Pow2(a) <= Pow2(b)
  {
    if a < b {
      Pow2Monotone(a, b - 1);
    }
  }

  lemma Pow2Less(a: nat, b: nat)
    ensures Pow2(a) < Pow2(b) ==> a < b
  {
    if b <= a {
      Pow2Monotone(b, a);
    }
  }

  lemma MulMono(a: nat, b: nat, w: nat)
    requires a <= b
    ensures a * w <= b * w
  {
  }

  lemma Strict(a: nat, b: nat, t: nat)
    requires t > 0
    ensures a < b ==> a * t < b * t
    ensures a * t >= 0 && b * t >= 0
  {
    MulMono(0, a, t);
    MulMono(0, b, t);
    if a < b {
      MulMono(a + 1, b, t);
      NextMultiple(a, t);
    }
  }

  lemma NextMultiple(k: int, d: int)
    ensures (k + 1) * d == k * d + d
  {
  }

  lemma AtLeastOne(k: int, d: nat)
    requires k >= 1
    ensures k * d >= d
  {
  }

  lemma Subtract(x: int, y: int, w: int)
    ensures (x - y) * w == x * w - y * w
  {
  }

  lemma BoundStep(v: int, w: int, x: int, k: int)
    requires v < w && 0 <= x < k
    ensures v * k + x < w * k
  {
    assert v + 1 <= w;
    assert (v + 1) * k <= w * k;
  }

  lemma DivUnique(x: nat, d: nat, q: nat, r: nat)
    requires d > 0 && x == q * d + r && r < d
    ensures x / d == q && x % d == r
  {
    EuclidUnique(d, q, r, x / d, x % d);
  }

  lemma EuclidUnique(d: nat, q: nat, r: nat, q': nat, r': nat)
    requires q * d + r == q' * d + r' && r < d && r' < d
    ensures q == q' && r == r'
  {
    Subtract(q, q', d);
    if q > q' {
      AtLeastOne(q - q', d);
    } else if q < q' {
      Subtract(q', q, d);
      AtLeastOne(q' - q, d);
    }
  }

  // Bitwise or.
  function Or(x: nat, y: nat): nat {
    if x == 0 then y else if y == 0 then x
    else 2 * Or(x / 2, y / 2) + if x % 2 == 1 || y % 2 == 1 then 1 else 0
  }

  // Where the lower operand fits under the bits of the higher one, or is addition.
  lemma {:induction false} OrDisjoint(q: nat, y: nat, k: nat)
    requires y < Pow2(k) && q * Pow2(k) >= 0
    ensures Or(q * Pow2(k), y) == q * Pow2(k) + y
  {
    if k == 0 {
    } else if y > 0 && q > 0 {
      MulMono(1, q, Pow2(k - 1));
      OrDouble(q, Pow2(k - 1));
      OrDisjoint(q, y / 2, k - 1);
    }
  }

  lemma OrDouble(q: nat, p: nat)
    requires q * p >= 0
    ensures q * (2 * p) / 2 == q * p && q * (2 * p) % 2 == 0
  {
    assert q * (2 * p) == 2 * (q * p);
  }

  lemma {:induction false} OrBound(x: nat, y: nat, n: nat)
    requires x < Pow2(n) && y < Pow2(n)
    ensures Or(x, y) < Pow2(n)
  {
    if x > 0 && y > 0 {
      OrBound(x / 2, y / 2, n - 1);
    }
  }
}
