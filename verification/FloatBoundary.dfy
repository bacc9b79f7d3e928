// Approximations far from every rounding boundary.

module FloatBoundary {
  import opened Arithmetic
  import opened FloatLimbs
  import opened FloatRound
  import opened FloatFormat
  import opened FloatPack
  import opened FloatNearest
  import opened FloatReal
  import opened FloatPower

  // The smallest subnormal number.
  function Unit(f: Format): (u: real)
    requires WellFormed(f)
    ensures u > 0.0
  {
    RPow(2.0, Emin(f) - f.mantissa)
  }

  function Abs(x: real): (r: real)
    ensures r >= 0.0 && (r == x || r == -x)
  {
    if x < 0.0 then -x else x
  }

  // How far the number that a word stands for is from x.
  function Off(f: Format, w: nat, x: real): real
    requires WellFormed(f)
  {
    Abs(Magnitude(f, w) as real * Unit(f) - x)
  }

  // No word is closer to x, and a word as close has an odd last bit while this one's is even.
  ghost predicate NearestTo(f: Format, w: nat, x: real)
    requires WellFormed(f)
  {
    && Canonical(f, w)
    && forall u: nat {:trigger Canonical(f, u)} :: Canonical(f, u) ==> BeatsAt(f, w, u, x)
  }

  predicate BeatsAt(f: Format, w: nat, u: nat, x: real)
    requires WellFormed(f)
  {
    Off(f, w, x) < Off(f, u, x) || (Off(f, w, x) == Off(f, u, x) && (u == w || w % 2 == 0))
  }

  // ---- Fractions and real numbers ----

  // Nearest to a fraction of smallest subnormal numbers is nearest to the number.
  lemma SameNearest(f: Format, w: nat, num: nat, den: nat, x: real)
    requires WellFormed(f) && den > 0 && x * den as real == num as real * Unit(f)
    ensures Nearest(f, w, num, den) <==> NearestTo(f, w, x)
  {
    hide Canonical, Beats, BeatsAt, Unit, Magnitude;
    forall u: nat ensures Beats(f, w, u, num, den) <==> BeatsAt(f, w, u, x) {
      SameBeats(f, w, u, num, den, x);
    }
  }

  lemma SameBeats(f: Format, w: nat, u: nat, num: nat, den: nat, x: real)
    requires WellFormed(f) && den > 0 && x * den as real == num as real * Unit(f)
    ensures Beats(f, w, u, num, den) <==> BeatsAt(f, w, u, x)
  {
    hide Unit, Magnitude, Off, Times, Distance;
    OffScaled(f, w, num, den, x);
    OffScaled(f, u, num, den, x);
    var a, b := Distance(Times(Magnitude(f, w), den), num), Distance(Times(Magnitude(f, u), den), num);
    SameOrderReal(Off(f, w, x), Off(f, u, x), den as real, a as real, b as real, Unit(f));
  }

  lemma OffScaled(f: Format, w: nat, num: nat, den: nat, x: real)
    requires WellFormed(f) && den > 0 && x * den as real == num as real * Unit(f)
    ensures Off(f, w, x) * den as real == Distance(Times(Magnitude(f, w), den), num) as real * Unit(f)
  {
    hide Unit, Magnitude;
    var m, d := Magnitude(f, w), den as real;
    TimesReal(m, den);
    DistanceReal(Times(m, den), num);
    OffAlgebra(m as real, d, num as real, Unit(f), x);
    AbsTimes(m as real * Unit(f) - x, d);
    AbsTimes(Times(m, den) as real - num as real, Unit(f));
  }

  lemma TimesReal(a: nat, b: nat)
    ensures Times(a, b) as real == a as real * b as real
  {
    RealProduct(a, b);
  }

  lemma DistanceReal(a: nat, b: nat)
    ensures Distance(a, b) as real == Abs(a as real - b as real)
  {
  }

  lemma OffAlgebra(m: real, d: real, n: real, u: real, x: real)
    requires x * d == n * u
    ensures (m * u - x) * d == (m * d - n) * u
  {
    assert (m * u - x) * d == m * u * d - x * d;
    assert m * u * d == m * d * u;
  }

  lemma AbsTimes(x: real, d: real)
    requires d > 0.0
    ensures Abs(x) * d == Abs(x * d)
  {
    if x < 0.0 {
      MulNonneg(-x, d);
      assert (-x) * d == -(x * d);
    } else {
      MulNonneg(x, d);
    }
  }

  lemma SameOrderReal(p: real, q: real, d: real, a: real, b: real, u: real)
    requires d > 0.0 && u > 0.0 && p * d == a * u && q * d == b * u
    ensures (p < q <==> a < b) && (p == q <==> a == b)
  {
    OrderTimes(p, q, d);
    OrderTimes(a, b, u);
  }

  lemma OrderTimes(p: real, q: real, d: real)
    requires d > 0.0
    ensures (p < q <==> p * d < q * d) && (p == q <==> p * d == q * d)
  {
    if p < q {
      assert (q - p) * d > 0.0;
    } else if q < p {
      assert (p - q) * d > 0.0;
    }
  }

  // ---- Between two boundaries ----

  // The number of a logical word, and the middle between it and the next one.
  function Point(f: Format, l: nat): real
    requires WellFormed(f)
  {
    LogMagnitude(f, l) as real * Unit(f)
  }

  function Boundary(f: Format, l: nat): real
    requires WellFormed(f)
  {
    (Point(f, l) + Point(f, l + 1)) / 2.0
  }

  lemma PointsGrow(f: Format, a: nat, b: nat)
    requires WellFormed(f) && a < b
    ensures Point(f, a) < Point(f, b)
  {
    hide LogMagnitude, Unit;
    MagnitudeMonotone(f, a, b);
    OrderTimes(LogMagnitude(f, a) as real, LogMagnitude(f, b) as real, Unit(f));
  }

  lemma OffPoint(f: Format, l: nat, x: real)
    requires WellFormed(f)
    ensures Off(f, Layout(f, l), x) == Abs(Point(f, l) - x)
  {
    hide LogMagnitude, Magnitude, Layout, Unit, Shr, Low, Pow2, Field, Significand;
    LayoutParts(f, l);
  }

  // x lies between the boundaries of l; infinity has none above it, and zero none below.
  predicate Between(f: Format, l: nat, x: real)
    requires WellFormed(f)
  {
    (l < InfinityOf(f) ==> x < Boundary(f, l)) && (l > 0 ==> x > Boundary(f, l - 1))
  }

  lemma BetweenIsNearest(f: Format, l: nat, x: real)
    requires WellFormed(f) && l <= InfinityOf(f) && Between(f, l, x)
    ensures NearestTo(f, Layout(f, l), x)
  {
    hide Canonical, Layout, Point, Off, InfinityOf, Between;
    LayoutCanonical(f, l);
    forall u: nat | Canonical(f, u) ensures BeatsAt(f, Layout(f, l), u, x) {
      var k := CanonicalIsLayout(f, u);
      if k != l {
        BetweenBeats(f, l, k, x);
      }
    }
  }

  lemma BetweenBeats(f: Format, l: nat, k: nat, x: real)
    requires WellFormed(f) && l <= InfinityOf(f) && k <= InfinityOf(f) && k != l && Between(f, l, x)
    ensures Off(f, Layout(f, l), x) < Off(f, Layout(f, k), x)
  {
    hide Layout, Point, Off, InfinityOf;
    OffPoint(f, l, x);
    OffPoint(f, k, x);
    if k > l {
      PointsGrow(f, l, k);
      if k > l + 1 {
        PointsGrow(f, l + 1, k);
      }
    } else {
      PointsGrow(f, k, l);
      if k < l - 1 {
        PointsGrow(f, k, l - 1);
      }
    }
  }

  lemma NearestIsBetween(f: Format, l: nat, x: real)
    requires WellFormed(f) && l <= InfinityOf(f) && NearestTo(f, Layout(f, l), x)
    requires forall k: nat :: k < InfinityOf(f) ==> x != Boundary(f, k)
    ensures Between(f, l, x)
  {
    hide Canonical, Layout, Point, Off, InfinityOf;
    OffPoint(f, l, x);
    if l < InfinityOf(f) {
      LayoutCanonical(f, l + 1);
      OffPoint(f, l + 1, x);
      PointsGrow(f, l, l + 1);
      assert BeatsAt(f, Layout(f, l), Layout(f, l + 1), x);
      assert x != Boundary(f, l);
    }
    if l > 0 {
      LayoutCanonical(f, l - 1);
      OffPoint(f, l - 1, x);
      PointsGrow(f, l - 1, l);
      assert BeatsAt(f, Layout(f, l), Layout(f, l - 1), x);
      assert x != Boundary(f, l - 1);
    }
  }

  // ---- An approximation stands for the number ----

  // x is farther than a relative error of e from every rounding boundary.
  ghost predicate Far(f: Format, x: real, e: real)
    requires WellFormed(f)
  {
    forall k: nat :: k < InfinityOf(f) ==> Abs(x - Boundary(f, k)) > x * e
  }

  lemma SameSide(f: Format, a: real, x: real, e: real, k: nat)
    requires WellFormed(f) && Close(a, x, e) && x * e >= 0.0 && Abs(x - Boundary(f, k)) > x * e
    ensures a != Boundary(f, k) && (a < Boundary(f, k) <==> x < Boundary(f, k))
  {
    hide Boundary;
    assert x * (1.0 - e) == x - x * e && x * (1.0 + e) == x + x * e;
  }

  // Far from the boundaries an approximation and the number have the same nearest word.
  lemma SharedNearest(f: Format, w: nat, a: real, x: real, e: real)
    requires WellFormed(f) && Close(a, x, e) && x * e >= 0.0 && Far(f, x, e)
    ensures NearestTo(f, w, a) <==> NearestTo(f, w, x)
  {
    hide Canonical, Layout, Boundary, InfinityOf, BeatsAt, Close;
    forall k: nat | k < InfinityOf(f) ensures a != Boundary(f, k) && x != Boundary(f, k) {
      SameSide(f, a, x, e, k);
      assert Abs(x - Boundary(f, k)) > x * e;
    }
    if Canonical(f, w) {
      var l := CanonicalIsLayout(f, w);
      forall k: nat | k < InfinityOf(f) ensures a < Boundary(f, k) <==> x < Boundary(f, k) {
        SameSide(f, a, x, e, k);
      }
      if NearestTo(f, w, a) {
        NearestIsBetween(f, l, a);
        BetweenIsNearest(f, l, x);
      }
      if NearestTo(f, w, x) {
        NearestIsBetween(f, l, x);
        BetweenIsNearest(f, l, a);
      }
    }
  }

  // The mantissa and the exponent as a fraction of smallest subnormal numbers.
  lemma FractionOf(f: Format, v: nat, ex: int)
    requires WellFormed(f)
    ensures Real(v, ex + 1) * Denominator(f, ex) as real == Numerator(f, v, ex) as real * Unit(f)
  {
    hide Pow2, RPow, Emin;
    var n, d := Biased(f, ex) - 1, 191 - f.mantissa + Gap(f, ex);
    RPowIsPow2(n);
    RPowIsPow2(d);
    RealProduct(v, Pow2(n));
    RPowAdd(2.0, ex + 1 - 192, d);
    RPowAdd(2.0, n, Emin(f) - f.mantissa);
    assert ex + 1 - 192 + d == n + (Emin(f) - f.mantissa);
    RAssoc(v as real, RPow(2.0, ex + 1 - 192), RPow(2.0, d));
    RAssoc(v as real, RPow(2.0, n), RPow(2.0, Emin(f) - f.mantissa));
  }

  // Main result: if the mantissa and the exponent approximate x, and x is farther than the error from every
  // rounding boundary, the packed word is the nearest to x itself exactly when RoundsRight holds.
  lemma ApproximationPacked(f: Format, minus: bool, v: nat, ex: int, x: real, e: real)
    requires WellFormed(f) && Pow2(191) <= v < Pow2(192)
    requires Close(Real(v, ex + 1), x, e) && x * e >= 0.0 && Far(f, x, e)
    ensures NearestTo(f, Packed(f, Near, false, minus, v, ex), x) <==> RoundsRight(f, v, ex)
  {
    hide Pow2, Packed, RoundsRight, Nearest, NearestTo, Far, Close, Real, Numerator, Denominator;
    var w := Packed(f, Near, false, minus, v, ex);
    PackedNearest(f, minus, v, ex);
    FractionOf(f, v, ex);
    DenominatorPositive(f, ex);
    SameNearest(f, w, Numerator(f, v, ex), Denominator(f, ex), Real(v, ex + 1));
    SharedNearest(f, w, Real(v, ex + 1), x, e);
  }

  lemma DenominatorPositive(f: Format, ex: int)
    requires WellFormed(f)
    ensures Denominator(f, ex) > 0
  {
  }

  // ---- Ties that the code misjudges lie close to a boundary ----

  // What the code drops before it rounds, as a part of the number.
  function Slack(f: Format, ex: int): (r: real)
    requires WellFormed(f)
    ensures r >= 0.0
  {
    Pow2(f.exponent + f.explicit + Gap(f, ex)) as real / Pow2(191) as real
  }

  lemma TieRest(f: Format, v: nat, ex: int)
    requires WellFormed(f) && Pow2(191) <= v < Pow2(192) && LostTie(f, v, ex)
    ensures
      var d, low := Denominator(f, ex), Low(v, f.exponent + f.explicit + Gap(f, ex));
      2 * v == (2 * KeptBits(f, v, ex) + 1) * d + 2 * low && 0 < low < Pow2(f.exponent + f.explicit + Gap(f, ex))
  {
    hide Pow2, Shr, Low, Gap, KeptBits;
    var s, n := f.exponent + f.explicit + Gap(f, ex), 192 - Bits(f);
    var w := Shr(v, s);
    KeptBitsRange(f, v, ex);
    ShrParts(v, s);
    ShrParts(w, n);
    ShrShr(v, s, n);
    Pow2Add(n, s);
    TieAlgebra(v, w, Shr(w, n), Pow2(n), Low(w, n), Pow2(s), Low(v, s));
  }

  lemma TieAlgebra(v: nat, w: nat, q: nat, p: nat, rest: nat, s: nat, low: nat)
    requires v == w * s + low && w == q * p + rest && 2 * rest == p
    ensures 2 * v == (2 * q + 1) * (p * s) + 2 * low
  {
    assert 2 * w == (2 * q + 1) * p;
    assert 2 * v == 2 * w * s + 2 * low;
    assert (2 * q + 1) * p * s == (2 * q + 1) * (p * s);
  }

  lemma TieIsNear(f: Format, v: nat, ex: int)
    requires WellFormed(f) && Pow2(191) <= v < Pow2(192) && LostTie(f, v, ex) && ex < Expmax(f)
    ensures Truncated(f, v, ex) < InfinityOf(f)
    ensures
      var a := Real(v, ex + 1);
      0.0 < a - Boundary(f, Truncated(f, v, ex)) <= a * Slack(f, ex)
  {
    hide Pow2, Shr, Low, KeptBits, Emin, Gap, LostTie, Truncated, Unit, InfinityOf, Real, Boundary, Expmax, Biased,
      Denominator;
    BiasedPositive(f, ex);
    var s := f.exponent + f.explicit + Gap(f, ex);
    TruncatedFinite(f, v, ex);
    BoundaryIs(f, v, ex);
    TieRestReal(f, v, ex);
    NumeratorIs(f, v, ex);
    TieReal(Real(v, ex + 1), Boundary(f, Truncated(f, v, ex)), v as real, KeptBits(f, v, ex) as real,
            Denominator(f, ex) as real, Low(v, s) as real, Pow2(s) as real, Pow2(191) as real,
            Pow2(Biased(f, ex) - 1) as real, Unit(f));
  }

  lemma TruncatedFinite(f: Format, v: nat, ex: int)
    requires WellFormed(f) && Pow2(191) <= v < Pow2(192) && ex < Expmax(f)
    ensures Truncated(f, v, ex) < InfinityOf(f)
  {
    hide Pow2, KeptBits, Truncated, InfinityOf, Expmax, LogMagnitude, Step;
    TruncatedFacts(f, v, ex);
  }

  lemma TieRestReal(f: Format, v: nat, ex: int)
    requires WellFormed(f) && Pow2(191) <= v < Pow2(192) && LostTie(f, v, ex)
    ensures
      var q, d, s := KeptBits(f, v, ex) as real, Denominator(f, ex) as real, f.exponent + f.explicit + Gap(f, ex);
      && d > 0.0 && 2.0 * v as real == (2.0 * q + 1.0) * d + 2.0 * Low(v, s) as real
      && 0.0 < Low(v, s) as real < Pow2(s) as real
  {
    hide Pow2, Low, KeptBits, Gap, LostTie, Denominator;
    TieRest(f, v, ex);
    DenominatorPositive(f, ex);
    RealProduct(2 * KeptBits(f, v, ex) + 1, Denominator(f, ex));
  }

  lemma BoundaryIs(f: Format, v: nat, ex: int)
    requires WellFormed(f) && Pow2(191) <= v < Pow2(192) && ex < Expmax(f)
    ensures
      var q, t, u := KeptBits(f, v, ex) as real, Pow2(Biased(f, ex) - 1) as real, Unit(f);
      Boundary(f, Truncated(f, v, ex)) == (q * t * u + (q * t + t) * u) / 2.0
  {
    hide Pow2, Shr, Low, KeptBits, Emin, Gap, Truncated, Unit, InfinityOf, Expmax, Biased, LogMagnitude, Step;
    BiasedPositive(f, ex);
    TruncatedFacts(f, v, ex);
    NextMagnitude(f, Truncated(f, v, ex));
    RealProduct(KeptBits(f, v, ex), Pow2(Biased(f, ex) - 1));
  }

  lemma NumeratorIs(f: Format, v: nat, ex: int)
    requires WellFormed(f)
    ensures Real(v, ex + 1) * Denominator(f, ex) as real == v as real * Pow2(Biased(f, ex) - 1) as real * Unit(f)
  {
    hide Pow2, Biased, Denominator, Unit, Real;
    BiasedPositive(f, ex);
    FractionOf(f, v, ex);
    RealProduct(v, Pow2(Biased(f, ex) - 1));
  }

  lemma BiasedPositive(f: Format, ex: int)
    requires WellFormed(f)
    ensures Biased(f, ex) >= 1
  {
  }

  lemma TieReal(a: real, b: real, v: real, q: real, d: real, low: real, s: real, h: real, t: real, u: real)
    requires d > 0.0 && t > 0.0 && u > 0.0 && 0.0 < low <= s && 0.0 < h <= v
    requires 2.0 * v == (2.0 * q + 1.0) * d + 2.0 * low
    requires a * d == v * t * u && b == (q * t * u + (q * t + t) * u) / 2.0
    ensures 0.0 < a - b <= a * (s / h)
  {
    var z := t * u;
    assert z > 0.0;
    assert a * d == v * z by {
      RAssoc(v, t, u);
    }
    assert 2.0 * b == (2.0 * q + 1.0) * z;
    BoundaryTimes(b, q, z, d);
    assert 2.0 * (v * z) == (2.0 * q + 1.0) * d * z + 2.0 * (low * z) by {
      Expand(v, (2.0 * q + 1.0) * d, low, z);
    }
    assert (a - b) * d == low * z;
    TieQuotient(a - b, a, d, low, v, z, s, h);
  }

  lemma BoundaryTimes(b: real, q: real, z: real, d: real)
    requires 2.0 * b == (2.0 * q + 1.0) * z
    ensures 2.0 * (b * d) == (2.0 * q + 1.0) * d * z
  {
    assert 2.0 * b * d == (2.0 * q + 1.0) * z * d;
  }

  lemma Expand(v: real, p: real, low: real, z: real)
    requires 2.0 * v == p + 2.0 * low
    ensures 2.0 * (v * z) == p * z + 2.0 * (low * z)
  {
    assert 2.0 * v * z == (p + 2.0 * low) * z;
  }

  // c / a is low / v, which is at most s / h.
  lemma TieQuotient(c: real, a: real, d: real, low: real, v: real, z: real, s: real, h: real)
    requires d > 0.0 && z > 0.0 && 0.0 < low <= s && 0.0 < h <= v && c * d == low * z && a * d == v * z
    ensures 0.0 < c <= a * (s / h)
  {
    var r := s / h;
    assert r * h == s && r > 0.0;
    MulLe(h, v, r);
    assert low <= r * v;
    MulLe(low, r * v, z);
    assert low * z > 0.0;
    assert c * d <= r * a * d by {
      RAssoc(r, v, z);
      RAssoc(r, a, d);
    }
    CancelReal(c, r * a, d);
  }

  lemma CancelReal(c: real, b: real, d: real)
    requires d > 0.0 && c * d > 0.0 && c * d <= b * d
    ensures 0.0 < c <= b
  {
    OrderTimes(b, c, d);
    OrderTimes(0.0, c, d);
  }

  // What to check of the number itself: farther from every rounding boundary than the error and twice the dropped
  // part, and not of the exponent that the code takes for a normal one.
  lemma FarIsNearest(f: Format, minus: bool, v: nat, ex: int, x: real, e: real)
    requires WellFormed(f) && Pow2(191) <= v < Pow2(192) && ex != Expmax(f)
    requires Close(Real(v, ex + 1), x, e) && x >= 0.0 && 0.0 <= e <= 1.0 && Far(f, x, e + 2.0 * Slack(f, ex))
    ensures NearestTo(f, Packed(f, Near, false, minus, v, ex), x)
  {
    hide Pow2, Packed, LostTie, NearestTo, Real, Truncated, InfinityOf, Boundary, Slack;
    var a, t := Real(v, ex + 1), Slack(f, ex);
    MulNonneg(x, e);
    MulNonneg(x, t);
    FarLess(f, x, e, e + 2.0 * t);
    if ex < Expmax(f) && LostTie(f, v, ex) {
      TieIsNear(f, v, ex);
      var b := Boundary(f, Truncated(f, v, ex));
      assert Abs(x - b) > x * (e + 2.0 * t);
      NearBoundary(a, b, x, e, t);
    }
    ApproximationPacked(f, minus, v, ex, x, e);
  }

  lemma FarLess(f: Format, x: real, e: real, more: real)
    requires WellFormed(f) && x >= 0.0 && e <= more && Far(f, x, more)
    ensures Far(f, x, e)
  {
    hide Boundary, InfinityOf;
    MulLe(e, more, x);
  }

  lemma NearBoundary(a: real, b: real, x: real, e: real, t: real)
    requires Close(a, x, e) && x >= 0.0 && 0.0 <= e <= 1.0 && t >= 0.0 && 0.0 < a - b <= a * t
    ensures Abs(x - b) <= x * (e + 2.0 * t)
  {
    assert x * (1.0 - e) == x - x * e && x * (1.0 + e) == x + x * e;
    MulLe(e, 1.0, x);
    MulLe(a, 2.0 * x, t);
    assert x * (e + 2.0 * t) == x * e + 2.0 * x * t;
  }
}
