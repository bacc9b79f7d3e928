// The probe sequence of the hash table.

module HashProbe {
  import opened Arithmetic

  type hash64 = x: nat | x < 0x1_0000_0000_0000_0000

  // hash_inc: the upper half of the hash, masked and made odd.
  function Step(h: hash64, size: nat): (s: nat)
    requires size > 0
  {
    var x := h / 0x1_0000_0000 % size;
    if x % 2 == 0 then x + 1 else x
  }

  // The slot that is looked at after j steps.
  function Pos(h: hash64, size: nat, j: nat): (p: nat)
    requires size > 0
    ensures p < size
  {
    Nonneg(h, Step(h, size), j);
    (h + j * Step(h, size)) % size
  }

  lemma Nonneg(h: nat, s: nat, j: nat)
    ensures h + j * s >= 0
  {
    MulMono(0, j, s);
  }

  lemma PosFirst(h: hash64, size: nat)
    requires size > 0
    ensures Pos(h, size, 0) == h % size
  {
  }

  lemma PosNext(h: hash64, size: nat, j: nat)
    requires size > 0
    ensures Pos(h, size, j + 1) == (Pos(h, size, j) + Step(h, size)) % size
  {
    hide Step, Pos;
    var s := Step(h, size);
    PosDef(h, size, j);
    PosDef(h, size, j + 1);
    Nonneg(h, s, j);
    ModPlus(h + j * s, s, size);
    assert h + (j + 1) * s == h + j * s + s by { NextMultiple(j, s); }
  }

  lemma PosDef(h: hash64, size: nat, j: nat)
    requires size > 0
    ensures Pos(h, size, j) == (h + j * Step(h, size)) % size
  {
  }

  lemma ModPlus(x: nat, s: nat, n: nat)
    requires n > 0
    ensures (x % n + s) % n == (x + s) % n
  {
    var q, r := x / n, x % n;
    var q', r' := (r + s) / n, (r + s) % n;
    StepSum(q, n, r, s, q', r');
    QuotNonneg(x, n);
    QuotNonneg(r + s, n);
    DivUnique(x + s, n, q + q', r');
  }

  lemma QuotNonneg(x: nat, n: nat)
    requires n > 0
    ensures x / n >= 0
  {
  }

  lemma StepSum(q: int, n: int, r: int, s: int, q': int, r': int)
    requires r + s == q' * n + r'
    ensures q * n + r + s == (q + q') * n + r'
  {
  }

  // An odd number has an inverse modulo every power of two.
  lemma {:induction false} OddInverse(a: nat, k: nat) returns (v: nat, t: int)
    requires a % 2 == 1
    ensures a * v == 1 + t * Pow2(k)
  {
    hide Pow2;
    if k == 0 {
      v, t := 0, -1;
      Pow2Zero();
    } else {
      v, t := OddInverse(a, k - 1);
      DoublePow(k - 1);
      v, t := NextInverse(a, v, Pow2(k - 1), t);
    }
  }

  // From an inverse modulo n to one modulo 2 n.
  lemma NextInverse(a: nat, v: nat, n: nat, t: int) returns (v': nat, t': int)
    requires a % 2 == 1 && a * v == 1 + t * n
    ensures a * v' == 1 + t' * (2 * n)
  {
    if t % 2 == 0 {
      v', t' := v, t / 2;
      HalfOf(t, t', n);
    } else {
      v', t' := v + n, (t + a) / 2;
      InverseStep(a, v, n, t);
      HalfOf(t + a, t', n);
    }
  }

  lemma HalfOf(x: int, h: int, n: int)
    requires x == 2 * h
    ensures x * n == h * (2 * n)
  {
  }

  lemma InverseStep(a: int, v: int, n: int, t: int)
    requires a * v == 1 + t * n
    ensures a * (v + n) == 1 + (t + a) * n
  {
  }

  lemma StepOdd(h: hash64, size: nat)
    requires size > 0
    ensures Step(h, size) % 2 == 1
  {
  }

  // Every slot is reached.
  lemma ProbeReaches(h: hash64, k: nat, e: nat) returns (j: nat)
    requires e < Pow2(k)
    ensures Pos(h, Pow2(k), j) == e
  {
    hide Pow2, Step;
    var n := Pow2(k);
    var s := Step(h, n);
    StepOdd(h, n);
    var v, t := OddInverse(s, k);
    // e - h is d modulo n, and d steps of v are j
    var d, u := (e - h) % n, (e - h) / n;
    assert e - h == u * n + d;
    MulMono(0, d, v);
    j := d * v % n;
    var w := d * v / n;
    assert d * v == w * n + j;
    Reaches(h, e, n, s, v, t, d, u, w, j);
    Nonneg(h, s, j);
    var q := d * t - w * s - u;
    if q < 0 {
      NegativeMultiple(q, n);
    }
    DivUnique(h + j * s, n, q, e);
  }

  lemma NegativeMultiple(q: int, n: nat)
    requires q < 0 && n > 0
    ensures q * n <= -(n as int)
  {
    AtLeastOne(0 - q, n);
    Subtract(0, q, n);
  }

  lemma Reaches(h: int, e: int, n: int, s: int, v: int, t: int, d: int, u: int, w: int, j: int)
    requires s * v == 1 + t * n && e - h == u * n + d && d * v == w * n + j
    ensures h + j * s == (d * t - w * s - u) * n + e
  {
    assert j * s == d * v * s - w * n * s;
    assert d * v * s == d * (s * v);
    assert d * (1 + t * n) == d + d * t * n;
    assert (d * t - w * s - u) * n == d * t * n - w * s * n - u * n;
    assert w * n * s == w * s * n;
  }
}
