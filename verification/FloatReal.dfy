// Real powers, and how relative errors add up in products. A number is close to another with error x if it
// differs from it by at most x times that one; the product of two close numbers, cut by at most u of itself,
// is close to the exact product with the sum of both errors and u, as long as their product is at most u.

module FloatReal {
  import opened Arithmetic
  import opened FloatLimbs

  function RPow(b: real, n: int): (r: real)
    requires b > 0.0
    ensures r > 0.0
    decreases if n < 0 then -n else n
  {
    if n == 0 then 1.0 else if n > 0 then b * RPow(b, n - 1) else RPow(b, n + 1) / b
  }

  lemma RPowZero(b: real)
    requires b > 0.0
    ensures RPow(b, 0) == 1.0
  {
  }

  lemma RPowNext(b: real, n: int)
    requires b > 0.0
    ensures RPow(b, n + 1) == b * RPow(b, n)
  {
  }

  lemma {:induction false} RPowAdd(b: real, m: int, n: int)
    requires b > 0.0
    ensures RPow(b, m + n) == RPow(b, m) * RPow(b, n)
    decreases if n < 0 then -n else n
  {
    hide RPow;
    if n > 0 {
      RPowAdd(b, m, n - 1);
      RPowNext(b, m + (n - 1));
      RPowNext(b, n - 1);
      Up(b, RPow(b, m), RPow(b, n - 1), RPow(b, m + (n - 1)), RPow(b, n), RPow(b, m + n));
    } else if n < 0 {
      RPowAdd(b, m, n + 1);
      RPowNext(b, m + n);
      RPowNext(b, n);
      assert m + n + 1 == m + (n + 1);
      Down(b, RPow(b, m), RPow(b, n), RPow(b, m + n), RPow(b, n + 1), RPow(b, m + (n + 1)));
    } else {
      RPowZero(b);
    }
  }

  lemma Up(b: real, x: real, y: real, z: real, y1: real, z1: real)
    requires z == x * y && y1 == b * y && z1 == b * z
    ensures z1 == x * y1
  {
  }

  lemma Down(b: real, x: real, y: real, z: real, y1: real, z1: real)
    requires b > 0.0 && z1 == x * y1 && y1 == b * y && z1 == b * z
    ensures z == x * y
  {
    assert b * z == b * (x * y);
  }

  // Integer powers of two are real ones.
  lemma {:induction false} RPowIsPow2(n: nat)
    ensures RPow(2.0, n) == Pow2(n) as real
  {
    if n > 0 {
      RPowIsPow2(n - 1);
    }
  }

  // a is t up to a relative error of x.
  predicate Close(a: real, t: real, x: real) {
    t * (1.0 - x) <= a <= t * (1.0 + x)
  }

  // The product of two approximations, cut by at most u of itself.
  lemma CloseProduct(a1: real, t1: real, x: real, a2: real, t2: real, y: real, a: real, u: real)
    requires 0.0 <= t1 && 0.0 <= t2 && 0.0 <= u <= 1.0 && 0.0 <= x <= 1.0 && 0.0 <= y <= 1.0
    requires Close(a1, t1, x) && Close(a2, t2, y) && x * y <= u
    requires a1 * a2 * (1.0 - u) <= a <= a1 * a2
    ensures Close(a, t1 * t2, x + y + u)
  {
    ProductBelow(a1, t1, x, a2, t2, y, u);
    ProductAbove(a1, t1, x, a2, t2, y, u);
  }

  lemma ProductAbove(a1: real, t1: real, x: real, a2: real, t2: real, y: real, u: real)
    requires 0.0 <= t1 && 0.0 <= t2 && 0.0 <= a1 <= t1 * (1.0 + x) && 0.0 <= a2 <= t2 * (1.0 + y) && x * y <= u
    ensures a1 * a2 <= t1 * t2 * (1.0 + (x + y + u))
  {
    var t, p, q := t1 * t2, 1.0 + x, 1.0 + y;
    MulNonneg(t1, t2);
    MulLe(a1, t1 * p, a2);
    MulLe(a2, t2 * q, t1 * p);
    Regroup(t1, p, t2, q);
    UpperFactor(x, y, u);
    MulLe(p * q, 1.0 + (x + y + u), t);
  }

  lemma ProductBelow(a1: real, t1: real, x: real, a2: real, t2: real, y: real, u: real)
    requires 0.0 <= t1 && 0.0 <= t2 && 0.0 <= x <= 1.0 && 0.0 <= y <= 1.0 && 0.0 <= u <= 1.0
    requires t1 * (1.0 - x) <= a1 && t2 * (1.0 - y) <= a2
    ensures 0.0 <= a1 && 0.0 <= a2 && t1 * t2 * (1.0 - (x + y + u)) <= a1 * a2 * (1.0 - u)
  {
    var t, p, q := t1 * t2, 1.0 - x, 1.0 - y;
    MulNonneg(t1, t2);
    MulNonneg(t1, p);
    MulNonneg(t2, q);
    MulLe(t1 * p, a1, t2 * q);
    MulLe(t2 * q, a2, a1);
    Regroup(t1, p, t2, q);
    LowerFactor(x, y, u);
    Chain(t, p * q, a1 * a2, 1.0 - u, 1.0 - (x + y + u));
  }

  lemma Chain(t: real, p: real, a: real, v: real, s: real)
    requires t >= 0.0 && v >= 0.0 && t * p <= a && p * v >= s
    ensures t * s <= a * v
  {
    MulLe(t * p, a, v);
    MulLe(s, p * v, t);
    RAssoc(t, p, v);
  }

  lemma RAssoc(t: real, a: real, b: real)
    ensures t * a * b == t * (a * b)
  {
  }

  lemma MulNonneg(a: real, b: real)
    requires a >= 0.0 && b >= 0.0
    ensures a * b >= 0.0
  {
  }

  lemma MulLe(a: real, b: real, c: real)
    requires a <= b && c >= 0.0
    ensures c * a <= c * b && a * c <= b * c
  {
  }

  lemma Regroup(a: real, b: real, c: real, d: real)
    ensures (a * b) * (c * d) == (a * c) * (b * d)
  {
  }

  lemma UpperFactor(x: real, y: real, u: real)
    requires x * y <= u
    ensures (1.0 + x) * (1.0 + y) <= 1.0 + (x + y + u)
  {
  }

  lemma LowerFactor(x: real, y: real, u: real)
    requires 0.0 <= x && 0.0 <= y && 0.0 <= u <= 1.0
    ensures (1.0 - x) * (1.0 - y) * (1.0 - u) >= 1.0 - (x + y + u)
  {
    var s := x + y;
    MulNonneg(x, y);
    MulNonneg(s, u);
    var p := (1.0 - x) * (1.0 - y);
    assert p == 1.0 - s + x * y;
    MulLe(1.0 - s, p, 1.0 - u);
    assert (1.0 - s) * (1.0 - u) == 1.0 - s - u + s * u;
  }
}
