// What packed words mean, and that packing gives the nearest one.

module FloatNearest {
  import opened Arithmetic
  import opened FloatLimbs
  import opened FloatRound
  import opened FloatFormat
  import opened FloatPack

  // The exponent field of a word without its sign, and what is behind it: the fraction, after the integer bit if any.
  function Field(f: Format, w: nat): nat
    requires WellFormed(f)
  {
    Shr(w, f.explicit + f.mantissa)
  }

  function Significand(f: Format, w: nat): nat
    requires WellFormed(f)
  {
    Low(w, f.explicit + f.mantissa) + if f.explicit == 0 && Field(f, w) > 0 then Pow2(f.mantissa) else 0
  }

  // The number a word stands for, in units of the smallest subnormal number. Infinity takes the value that would
  // come after the largest finite number.
  function Magnitude(f: Format, w: nat): nat
    requires WellFormed(f)
  {
    Scale(Significand(f, w), if Field(f, w) == 0 then 0 else Field(f, w) - 1)
  }

  // A finite number in its one encoding (the integer bit is set for the normal ones), or infinity.
  predicate Canonical(f: Format, w: nat)
    requires WellFormed(f)
  {
    && (Field(f, w) == 0 <==> Significand(f, w) < Pow2(f.mantissa))
    && (Field(f, w) < Pow2(f.exponent) - 1 ||
        (Field(f, w) == Pow2(f.exponent) - 1 && Significand(f, w) == Pow2(f.mantissa)))
  }

  function Distance(a: nat, b: nat): nat {
    if a < b then b - a else a - b
  }

  // No word is closer to num / den, and a word as close has an odd last bit while this one's is even.
  ghost predicate Nearest(f: Format, w: nat, num: nat, den: nat)
    requires WellFormed(f)
  {
    && Canonical(f, w)
    && forall u: nat {:trigger Canonical(f, u)} :: Canonical(f, u) ==> Beats(f, w, u, num, den)
  }

  predicate Beats(f: Format, w: nat, u: nat, num: nat, den: nat)
    requires WellFormed(f)
  {
    var a, b := Distance(Times(Magnitude(f, w), den), num), Distance(Times(Magnitude(f, u), den), num);
    a < b || (a == b && (u == w || w % 2 == 0))
  }

  function Times(a: nat, b: nat): (r: nat)
    ensures r == a * b
  {
    MulMono(0, a, b);
    a * b
  }

  // The logical words, in order of magnitude: 0, 1, ... up to infinity.
  function LogMagnitude(f: Format, l: nat): nat
    requires WellFormed(f)
  {
    var e := Shr(l, f.mantissa);
    if e == 0 then l else Scale(Pow2(f.mantissa) + Low(l, f.mantissa), e - 1)
  }

  lemma LayoutParts(f: Format, l: nat)
    requires WellFormed(f)
    ensures Field(f, Layout(f, l)) == Shr(l, f.mantissa)
    ensures Significand(f, Layout(f, l)) == Low(l, f.mantissa) + if Shr(l, f.mantissa) > 0 then Pow2(f.mantissa) else 0
    ensures Layout(f, l) % 2 == l % 2
    ensures Magnitude(f, Layout(f, l)) == LogMagnitude(f, l)
  {
    hide Pow2, Shr, Low;
    var e, r, p := Shr(l, f.mantissa), Low(l, f.mantissa), Pow2(f.mantissa);
    ShrParts(l, f.mantissa);
    Pow2Zero();
    if f.explicit == 1 {
      DoublePow(f.mantissa);
      MulAssoc(2, e, p);
      MulAssoc(e, 2, p);
      DoublePow(f.mantissa - 1);
      LayoutParity(e, Pow2(f.mantissa - 1), r);
      if e == 0 {
        ShrUnique(l, f.mantissa + 1, 0, l);
      } else {
        ShrUnique(Layout(f, l), f.mantissa + 1, e, p + r);
      }
    }
  }

  lemma LayoutParity(e: nat, h: nat, r: nat)
    ensures (e * (2 * h) + r) % 2 == r % 2
    ensures (2 * (e * (2 * h)) + 2 * h + r) % 2 == r % 2
  {
    EvenPart(e, h, r);
    EvenPlus(e * (2 * h) + h, r);
  }

  // Every canonical word is the layout of one logical word, at most that of infinity.
  lemma CanonicalIsLayout(f: Format, w: nat) returns (l: nat)
    requires WellFormed(f) && Canonical(f, w)
    ensures l <= InfinityOf(f) && Layout(f, l) == w
  {
    hide Pow2, Shr, Low;
    var n, p := Field(f, w), Pow2(f.mantissa);
    ShrParts(w, f.explicit + f.mantissa);
    DoublePow(f.mantissa);
    var r := if n == 0 then Significand(f, w) else Significand(f, w) - p;
    SignificandBelow(f, w);
    MulMono(0, n, p);
    l := n * p + r;
    ShrUnique(l, f.mantissa, n, r);
    MulAssoc(n, 2, p);
    MulAssoc(2, n, p);
    if n < Pow2(f.exponent) - 1 {
      MulMono(n + 1, Pow2(f.exponent) - 1, p);
      NextMultiple(n, p);
    }
  }

  lemma SignificandBelow(f: Format, w: nat)
    requires WellFormed(f)
    ensures Significand(f, w) < 2 * Pow2(f.mantissa)
  {
    hide Shr, Low, Pow2;
    ShrParts(w, f.explicit + f.mantissa);
    DoublePow(f.mantissa);
  }

  lemma LayoutCanonical(f: Format, l: nat)
    requires WellFormed(f)
    ensures Canonical(f, Layout(f, l)) <==> l <= InfinityOf(f)
  {
    hide Pow2, Shr, Low, Layout, Field, Significand;
    LayoutParts(f, l);
    ShrParts(l, f.mantissa);
    Pow2Monotone(2, f.exponent);
    FourUp();
    var e, n, p := Shr(l, f.mantissa), Pow2(f.exponent) - 1, Pow2(f.mantissa);
    if e < n {
      MulMono(e + 1, n, p);
      NextMultiple(e, p);
    } else if e > n {
      MulMono(n + 1, e, p);
      NextMultiple(n, p);
    }
  }

  // The distance to the next logical word.
  function Step(f: Format, l: nat): nat
    requires WellFormed(f)
  {
    var e := Shr(l, f.mantissa);
    Pow2(if e == 0 then 0 else e - 1)
  }

  lemma NextMagnitude(f: Format, l: nat)
    requires WellFormed(f)
    ensures LogMagnitude(f, l + 1) == LogMagnitude(f, l) + Step(f, l) && Step(f, l) > 0
  {
    hide Pow2, Shr, Low;
    var e, r, p := Shr(l, f.mantissa), Low(l, f.mantissa), Pow2(f.mantissa);
    ShrParts(l, f.mantissa);
    Pow2Zero();
    if r + 1 < p {
      ShrUnique(l + 1, f.mantissa, e, r + 1);
      if e > 0 {
        NextMultiple(p + r, Pow2(e - 1));
      }
    } else {
      NextMultiple(e, p);
      ShrUnique(l + 1, f.mantissa, e + 1, 0);
      if e > 0 {
        DoublePow(e - 1);
        MulAssoc(p, 2, Pow2(e - 1));
        NextMultiple(p + r, Pow2(e - 1));
        DoubleTimes(p, Pow2(e - 1));
      }
    }
  }

  lemma DoubleTimes(p: int, h: int)
    ensures p * (2 * h) == (p + p) * h
  {
  }

  lemma {:induction false} MagnitudeMonotone(f: Format, a: nat, b: nat)
    requires WellFormed(f) && a <= b
    ensures LogMagnitude(f, a) <= LogMagnitude(f, b)
    ensures a < b ==> LogMagnitude(f, a) < LogMagnitude(f, b)
    decreases b - a
  {
    hide LogMagnitude, Step;
    if a < b {
      MagnitudeMonotone(f, a, b - 1);
      NextMagnitude(f, b - 1);
    }
  }

  // A number between two neighbours goes to the closer one, or to the even one from the middle.
  predicate GoesToNext(f: Format, l: nat, num: nat, den: nat)
    requires WellFormed(f)
  {
    var r, s := 2 * (num - Times(LogMagnitude(f, l), den)), Times(Step(f, l), den);
    r > s || (r == s && l % 2 == 1)
  }

  lemma StepTimes(f: Format, l: nat, den: nat)
    requires WellFormed(f) && den > 0
    ensures Times(LogMagnitude(f, l + 1), den) == Times(LogMagnitude(f, l), den) + Times(Step(f, l), den)
    ensures Times(Step(f, l), den) > 0
  {
    hide LogMagnitude, Step;
    NextMagnitude(f, l);
    AtLeastOne(Step(f, l), den);
    StepAlgebra(LogMagnitude(f, l), Step(f, l), den);
  }

  lemma StepAlgebra(a: int, b: int, d: int)
    ensures (a + b) * d == a * d + b * d
  {
  }

  lemma TimesMonotone(f: Format, a: nat, b: nat, den: nat)
    requires WellFormed(f) && den > 0
    ensures a <= b ==> Times(LogMagnitude(f, a), den) <= Times(LogMagnitude(f, b), den)
    ensures a < b ==> Times(LogMagnitude(f, a), den) < Times(LogMagnitude(f, b), den)
  {
    hide LogMagnitude, Step;
    if a < b {
      MagnitudeMonotone(f, a, b);
      MulMono(LogMagnitude(f, a) + 1, LogMagnitude(f, b), den);
      NextMultiple(LogMagnitude(f, a), den);
    }
  }

  lemma NeighbourBeats(f: Format, l: nat, k: nat, num: nat, den: nat)
    requires WellFormed(f) && den > 0
    requires Times(LogMagnitude(f, l), den) <= num < Times(LogMagnitude(f, l + 1), den)
    ensures Beats(f, Layout(f, if GoesToNext(f, l, num, den) then l + 1 else l), Layout(f, k), num, den)
  {
    hide LogMagnitude, Step, Magnitude, Layout, Times;
    LayoutParts(f, l);
    LayoutParts(f, l + 1);
    LayoutParts(f, k);
    StepTimes(f, l, den);
    TimesMonotone(f, k, l, den);
    TimesMonotone(f, l + 1, k, den);
    Closer(l, k, GoesToNext(f, l, num, den), Times(LogMagnitude(f, l), den), Times(Step(f, l), den),
      Times(LogMagnitude(f, k), den), num);
  }

  // a and a + s are the neighbours of num; c is the value of another word k.
  lemma Closer(l: nat, k: nat, up: bool, a: nat, s: nat, c: nat, num: nat)
    requires a <= num < a + s && (up <==> 2 * (num - a) > s || (2 * (num - a) == s && l % 2 == 1))
    requires if k <= l then c <= a && (k == l <==> c == a) else c >= a + s && (k == l + 1 <==> c == a + s)
    ensures
      var w, b := if up then l + 1 else l, Distance(if up then a + s else a, num);
      b < Distance(c, num) || (b == Distance(c, num) && (k == w || w % 2 == 0))
  {
  }

  lemma NearestByNeighbour(f: Format, l: nat, num: nat, den: nat)
    requires WellFormed(f) && den > 0 && l < InfinityOf(f)
    requires Times(LogMagnitude(f, l), den) <= num < Times(LogMagnitude(f, l + 1), den)
    ensures Nearest(f, Layout(f, if GoesToNext(f, l, num, den) then l + 1 else l), num, den)
    ensures GoesToNext(f, l, num, den) ==> !Nearest(f, Layout(f, l), num, den)
  {
    hide LogMagnitude, Step, Magnitude, Layout, Times, GoesToNext, Beats, Canonical, InfinityOf;
    var w := Layout(f, if GoesToNext(f, l, num, den) then l + 1 else l);
    LayoutCanonical(f, l);
    LayoutCanonical(f, l + 1);
    forall u: nat | Canonical(f, u) ensures Beats(f, w, u, num, den) {
      var k := CanonicalIsLayout(f, u);
      NeighbourBeats(f, l, k, num, den);
    }
    if GoesToNext(f, l, num, den) {
      NextBeatsLast(f, l, num, den);
    }
  }

  lemma NextBeatsLast(f: Format, l: nat, num: nat, den: nat)
    requires WellFormed(f) && den > 0 && GoesToNext(f, l, num, den)
    requires Times(LogMagnitude(f, l), den) <= num < Times(LogMagnitude(f, l + 1), den)
    ensures !Beats(f, Layout(f, l), Layout(f, l + 1), num, den)
  {
    hide LogMagnitude, Step, Magnitude, Layout, Times;
    LayoutParts(f, l);
    LayoutParts(f, l + 1);
    StepTimes(f, l, den);
  }

  lemma NearestInfinity(f: Format, num: nat, den: nat)
    requires WellFormed(f) && den > 0 && num >= Times(LogMagnitude(f, InfinityOf(f)), den)
    ensures Nearest(f, Layout(f, InfinityOf(f)), num, den)
  {
    hide LogMagnitude, Step, Magnitude, Layout, Times, Beats, Canonical, InfinityOf;
    var l := InfinityOf(f);
    LayoutCanonical(f, l);
    forall u: nat | Canonical(f, u) ensures Beats(f, Layout(f, l), u, num, den) {
      var k := CanonicalIsLayout(f, u);
      InfinityBeats(f, l, k, num, den);
    }
  }

  lemma InfinityBeats(f: Format, l: nat, k: nat, num: nat, den: nat)
    requires WellFormed(f) && den > 0 && k <= l && Times(LogMagnitude(f, l), den) <= num
    ensures Beats(f, Layout(f, l), Layout(f, k), num, den)
  {
    hide LogMagnitude, Step, Magnitude, Layout, Times;
    LayoutParts(f, l);
    LayoutParts(f, k);
    TimesMonotone(f, k, l, den);
  }

  // The number v * 2^(ex - 191) in units of the smallest subnormal number, as a fraction.
  function Numerator(f: Format, v: nat, ex: int): nat
    requires WellFormed(f)
  {
    Scale(v, Biased(f, ex) - 1)
  }

  function Denominator(f: Format, ex: int): nat
    requires WellFormed(f)
  {
    Pow2(191 - f.mantissa + Gap(f, ex))
  }

  // Numerator * 2^(Emin - mantissa) / Denominator is v * 2^(ex - 191), all exponents moved up by k.
  lemma UnitsOfValue(f: Format, v: nat, ex: int, k: nat)
    requires WellFormed(f) && Emin(f) - f.mantissa + k >= 0 && ex + k >= 0
    ensures
      Scale(Numerator(f, v, ex), Emin(f) - f.mantissa + k + 191) == Scale(v, ex + k) * Denominator(f, ex)
  {
    hide Pow2, Emin;
    var n, a, b := Biased(f, ex) - 1, Emin(f) - f.mantissa + k + 191, 191 - f.mantissa + Gap(f, ex);
    Pow2Add(n, a);
    Pow2Add(ex + k, b);
    assert n + a == ex + k + b;
    MulAssoc(v, Pow2(n), Pow2(a));
    MulAssoc(v, Pow2(ex + k), Pow2(b));
  }

  // The shift of the code dropped bits that would have decided a tie.
  predicate LostTie(f: Format, v: nat, ex: int)
    requires WellFormed(f)
  {
    var shift := f.exponent + f.explicit + Gap(f, ex);
    var w := Shr(v, shift);
    2 * Rest(w, Bits(f)) == Pow2(192 - Bits(f)) && Low(v, shift) != 0 && KeptBits(f, v, ex) % 2 == 0
  }

  // When the packed word is right: with an exponent of Expmax, which the code takes for a normal one, only when the
  // rounded significand is a power of two; below it, when no tie is misjudged; above it, always.
  predicate RoundsRight(f: Format, v: nat, ex: int)
    requires WellFormed(f)
  {
    if ex > Expmax(f) then true
    else if ex == Expmax(f) then
      var q := RoundedBits(f, Near, false, v, ex);
      q == Pow2(f.mantissa) || q == 2 * Pow2(f.mantissa)
    else !LostTie(f, v, ex)
  }

  // What is lost in all, against half a unit of the last kept bit.
  lemma Lost(f: Format, v: nat, ex: int)
    requires WellFormed(f) && Pow2(191) <= v < Pow2(192)
    ensures
      var q, r, d := KeptBits(f, v, ex), Low(v, 191 - f.mantissa + Gap(f, ex)), Denominator(f, ex);
      && v == q * d + r && r < d
      && ((2 * r > d || (2 * r == d && q % 2 == 1)) <==>
          (RoundsUp(f, Near, false, v, ex) || LostTie(f, v, ex)))
      && !(RoundsUp(f, Near, false, v, ex) && LostTie(f, v, ex))
  {
    hide Pow2, Shr, Low, Gap;
    var s, n := f.exponent + f.explicit + Gap(f, ex), 192 - Bits(f);
    var w := Shr(v, s);
    KeptBitsRange(f, v, ex);
    ShrParts(v, s);
    ShrParts(w, n);
    ShrParts(v, s + n);
    ShrShr(v, s, n);
    Pow2Add(n, s);
    ShrShrAlgebra(Shr(w, n), Pow2(n), Low(w, n), Pow2(s), Low(v, s));
    BoundStep(Low(w, n), Pow2(n), Low(v, s), Pow2(s));
    ShrUnique(v, s + n, Shr(w, n), Low(w, n) * Pow2(s) + Low(v, s));
    DoublePow(n - 1);
    TwoStage(Low(w, n), Pow2(n - 1), Pow2(s), Low(v, s));
  }

  // Comparing with half a unit before and after the low bits are dropped.
  lemma TwoStage(a: nat, h: nat, s: nat, l: nat)
    requires l < s
    ensures a > h ==> 2 * (a * s + l) > 2 * h * s
    ensures a == h ==> 2 * (a * s + l) == 2 * h * s + 2 * l
    ensures a < h ==> 2 * (a * s + l) < 2 * h * s
  {
    MulAssoc(2, h, s);
    if a > h {
      MulMono(h + 1, a, s);
      NextMultiple(h, s);
    } else if a < h {
      MulMono(a + 1, h, s);
      NextMultiple(a, s);
    }
  }

  // The logical word of the truncated number.
  function Truncated(f: Format, v: nat, ex: int): nat
    requires WellFormed(f)
  {
    Scale(Biased(f, ex) - 1, f.mantissa) + KeptBits(f, v, ex)
  }

  lemma TruncatedFacts(f: Format, v: nat, ex: int)
    requires WellFormed(f) && Pow2(191) <= v < Pow2(192) && ex <= Expmax(f)
    ensures
      var l, q, n := Truncated(f, v, ex), KeptBits(f, v, ex), Biased(f, ex) - 1;
      && LogMagnitude(f, l) == Scale(q, n) && Step(f, l) == Pow2(n) && l % 2 == q % 2
      && (ex < Expmax(f) ==> l < InfinityOf(f))
  {
    hide Pow2, Shr, Low, KeptBits, Emin, Gap;
    var l, q, n, p := Truncated(f, v, ex), KeptBits(f, v, ex), Biased(f, ex) - 1, Pow2(f.mantissa);
    KeptBitsRange(f, v, ex);
    GapOrNot(f, ex);
    Pow2Zero();
    DoublePow(f.mantissa - 1);
    EvenPart(n, Pow2(f.mantissa - 1), q);
    if Gap(f, ex) > 0 {
      ShrUnique(l, f.mantissa, 0, q);
    } else {
      NextMultiple(n, p);
      ShrUnique(l, f.mantissa, n + 1, q - p);
    }
    if ex < Expmax(f) {
      MulMono(n + 2, Pow2(f.exponent) - 1, p);
      NextMultiple(n, p);
      NextMultiple(n + 1, p);
    }
  }

  lemma GapOrNot(f: Format, ex: int)
    requires WellFormed(f)
    ensures Gap(f, ex) > 0 ==> Biased(f, ex) == 1
    ensures ex < Expmax(f) ==> Biased(f, ex) + 2 <= Pow2(f.exponent)
    ensures ex == Expmax(f) ==> Biased(f, ex) + 1 == Pow2(f.exponent) && Gap(f, ex) == 0
  {
    NoWrap(f);
    Pow2Monotone(1, f.exponent - 1);
    Pow2Values();
  }

  // Against the magnitudes of the truncated word and the next one.
  lemma TruncatedBounds(f: Format, v: nat, ex: int)
    requires WellFormed(f) && Pow2(191) <= v < Pow2(192) && ex <= Expmax(f)
    ensures
      var l, num, den := Truncated(f, v, ex), Numerator(f, v, ex), Denominator(f, ex);
      && Times(LogMagnitude(f, l), den) <= num < Times(LogMagnitude(f, l + 1), den)
      && (GoesToNext(f, l, num, den) <==> RoundsUp(f, Near, false, v, ex) || LostTie(f, v, ex))
  {
    hide Pow2, Shr, Low, KeptBits, Emin, Gap, LogMagnitude, Step, Times, LostTie, RoundsUp, Truncated;
    var l, q, n, d := Truncated(f, v, ex), KeptBits(f, v, ex), Biased(f, ex) - 1, Denominator(f, ex);
    var r := Low(v, 191 - f.mantissa + Gap(f, ex));
    TruncatedFacts(f, v, ex);
    Lost(f, v, ex);
    StepTimes(f, l, d);
    TimesDef(LogMagnitude(f, l), d);
    TimesDef(Step(f, l), d);
    ScaledUp(q, d, r, Pow2(n));
  }

  lemma TimesDef(a: nat, b: nat)
    ensures Times(a, b) == a * b
  {
  }

  lemma ScaledUp(q: nat, d: nat, r: nat, t: nat)
    requires r < d && t > 0
    ensures (q * d + r) * t == q * t * d + r * t
    ensures 0 <= r * t < t * d
    ensures 2 * r > d <==> 2 * (r * t) > t * d
    ensures 2 * r == d <==> 2 * (r * t) == t * d
  {
    assert (q * d + r) * t == q * d * t + r * t;
    Strict(0, r, t);
    Strict(r, d, t);
    Strict(d, 2 * r, t);
    Strict(2 * r, d, t);
    MulAssoc(2, r, t);
  }

  // The packed word is the nearest to the number exactly when RoundsRight holds.
  lemma PackedNearest(f: Format, minus: bool, v: nat, ex: int)
    requires WellFormed(f) && Pow2(191) <= v < Pow2(192)
    ensures
      Nearest(f, Packed(f, Near, false, minus, v, ex), Numerator(f, v, ex), Denominator(f, ex)) <==>
      RoundsRight(f, v, ex)
  {
    hide Pow2, Shr, Low, KeptBits, Emin, Gap, LogMagnitude, Step, Times, LostTie, RoundsUp, Layout, InfinityOf, Scale,
      Nearest, GoesToNext, Numerator, Denominator;
    NearIgnoresSign(f, minus, v, ex);
    if ex > Expmax(f) {
      FarAbove(f, v, ex);
      NearestInfinity(f, Numerator(f, v, ex), Denominator(f, ex));
    } else {
      TruncatedBounds(f, v, ex);
      if ex < Expmax(f) {
        TruncatedFacts(f, v, ex);
        Lost(f, v, ex);
        NearestByNeighbour(f, Truncated(f, v, ex), Numerator(f, v, ex), Denominator(f, ex));
        PackedBelow(f, v, ex);
      } else {
        AtExpmax(f, v, ex);
      }
    }
  }

  lemma NearIgnoresSign(f: Format, minus: bool, v: nat, ex: int)
    requires WellFormed(f)
    ensures Packed(f, Near, false, minus, v, ex) == Packed(f, Near, false, false, v, ex)
  {
  }

  lemma PackedBelow(f: Format, v: nat, ex: int)
    requires WellFormed(f) && Pow2(191) <= v < Pow2(192) && ex < Expmax(f)
    ensures
      Packed(f, Near, false, false, v, ex) ==
      Layout(f, Truncated(f, v, ex) + if RoundsUp(f, Near, false, v, ex) then 1 else 0)
  {
    hide Pow2, Shr, Low, KeptBits, Emin, Gap, RoundsUp, Layout;
    var n := Biased(f, ex) - 1;
    GapOrNot(f, ex);
    NextMultiple(n, Pow2(f.mantissa));
    NextMultiple(n + 1, Pow2(f.mantissa));
  }

  lemma FarAbove(f: Format, v: nat, ex: int)
    requires WellFormed(f) && Pow2(191) <= v && ex > Expmax(f)
    ensures Numerator(f, v, ex) >= Times(LogMagnitude(f, InfinityOf(f)), Denominator(f, ex))
    ensures Packed(f, Near, false, false, v, ex) == Layout(f, InfinityOf(f))
    ensures Denominator(f, ex) > 0
  {
    hide Pow2, Shr, Low, Layout, RoundedBits;
    NoWrap(f);
    Pow2Monotone(2, f.exponent);
    FourUp();
    var e, m, n := Pow2(f.exponent) - 1, f.mantissa, Biased(f, ex) - 1;
    ShrUnique(InfinityOf(f), m, e, 0);
    Pow2Add(m, e - 1);
    Pow2Add(m + e - 1, 191 - m);
    Pow2Add(191, n);
    Pow2Monotone(e + 190, 191 + n);
    MulMono(Pow2(191), v, Pow2(n));
  }

  lemma AtExpmax(f: Format, v: nat, ex: int)
    requires WellFormed(f) && Pow2(191) <= v < Pow2(192) && ex == Expmax(f)
    ensures
      Nearest(f, Packed(f, Near, false, false, v, ex), Numerator(f, v, ex), Denominator(f, ex)) <==>
      RoundsRight(f, v, ex)
  {
    hide Pow2, Shr, Low, KeptBits, Emin, Gap, LogMagnitude, Step, Times, RoundsUp, Layout,
      Nearest, GoesToNext, Numerator, Denominator, Canonical;
    var q, p, n := RoundedBits(f, Near, false, v, ex), Pow2(f.mantissa), Biased(f, ex) - 1;
    GapOrNot(f, ex);
    KeptBitsRange(f, v, ex);
    NextMultiple(n, p);
    if q == p || q == 2 * p {
      AboveInfinity(f, v, ex);
      NearestInfinity(f, Numerator(f, v, ex), Denominator(f, ex));
    } else {
      var l := Scale(n, f.mantissa) + q;
      LayoutCanonical(f, l);
      NotNearest(f, Layout(f, l), Numerator(f, v, ex), Denominator(f, ex));
    }
  }

  lemma NotNearest(f: Format, w: nat, num: nat, den: nat)
    requires WellFormed(f) && !Canonical(f, w)
    ensures !Nearest(f, w, num, den)
  {
  }

  lemma AboveInfinity(f: Format, v: nat, ex: int)
    requires WellFormed(f) && Pow2(191) <= v < Pow2(192) && ex == Expmax(f)
    ensures Numerator(f, v, ex) >= Times(LogMagnitude(f, InfinityOf(f)), Denominator(f, ex))
    ensures Denominator(f, ex) > 0
  {
    hide Pow2, Shr, Low, KeptBits, Emin, Gap, LogMagnitude, Step, Times, Numerator, Truncated;
    var l, n, p := Truncated(f, v, ex), Biased(f, ex) - 1, Pow2(f.mantissa);
    GapOrNot(f, ex);
    KeptBitsRange(f, v, ex);
    NextMultiple(n, p);
    TruncatedDef(f, v, ex);
    TruncatedBounds(f, v, ex);
    TimesMonotone(f, InfinityOf(f), l, Denominator(f, ex));
  }

  lemma TruncatedDef(f: Format, v: nat, ex: int)
    requires WellFormed(f)
    ensures Truncated(f, v, ex) == (Biased(f, ex) - 1) * Pow2(f.mantissa) + KeptBits(f, v, ex)
  {
  }

  // 1.5 * 2^Expmax becomes a NaN in every format.
  lemma ExpmaxFails(f: Format)
    requires WellFormed(f)
    ensures Pow2(191) <= 3 * Pow2(190) < Pow2(192) && !RoundsRight(f, 3 * Pow2(190), Expmax(f))
  {
    hide Pow2, Shr, Low, RoundsUp, Gap;
    var m, v := f.mantissa, 3 * Pow2(190);
    DoublePow(190);
    DoublePow(191);
    DoublePow(m - 1);
    DoublePow(m - 2);
    KeptBitsRange(f, v, Expmax(f));
    GapOrNot(f, Expmax(f));
    Pow2Add(m - 1, 191 - m);
    MulAssoc(3, Pow2(m - 1), Pow2(191 - m));
    ShrUnique(v, 191 - m, 3 * Pow2(m - 1), 0);
  }

  // One, half a unit and a last bit out of 192: the code drops the last bit and rounds down.
  lemma TieIsLost(f: Format)
    requires WellFormed(f)
    ensures
      var v := Pow2(191) + Pow2(190 - f.mantissa) + 1;
      v < Pow2(192) && !RoundsRight(f, v, 0)
  {
    hide Pow2, LostTie, RoundedBits, Expmax;
    var v, w := TieOf(f);
    ZeroIsNormal(f);
    LostAt(f, v, w);
  }

  lemma LostAt(f: Format, v: nat, w: nat)
    requires WellFormed(f) && Gap(f, 0) == 0 && v == w * Pow2(f.exponent + f.explicit) + 1
    requires w == Pow2(f.mantissa) * Pow2(192 - Bits(f)) + Pow2(191 - Bits(f))
    ensures LostTie(f, v, 0)
  {
    hide Pow2, Shr, Low, Gap;
    var m, s, n := f.mantissa, f.exponent + f.explicit, 192 - Bits(f);
    HalfUnit(n, m, w);
    DoublePow(s - 1);
    ShrUnique(v, s, w, 1);
  }

  lemma HalfUnit(n: nat, m: nat, w: nat)
    requires n > 0 && m > 0 && w == Pow2(m) * Pow2(n) + Pow2(n - 1)
    ensures Shr(w, n) == Pow2(m) && Pow2(m) % 2 == 0 && 2 * Low(w, n) == Pow2(n)
  {
    hide Pow2, Shr, Low;
    DoublePow(n - 1);
    DoublePow(m - 1);
    ShrUnique(w, n, Pow2(m), Pow2(n - 1));
  }

  lemma TieOf(f: Format) returns (v: nat, w: nat)
    requires WellFormed(f)
    ensures v == Pow2(191) + Pow2(190 - f.mantissa) + 1 && v < Pow2(192)
    ensures v == w * Pow2(f.exponent + f.explicit) + 1
    ensures w == Pow2(f.mantissa) * Pow2(192 - Bits(f)) + Pow2(191 - Bits(f))
  {
    hide Pow2;
    var m, s, n := f.mantissa, f.exponent + f.explicit, 192 - Bits(f);
    Pow2Add(m, n);
    Pow2Add(m + n, s);
    Pow2Add(n - 1, s);
    v, w := Pow2(191) + Pow2(190 - m) + 1, Pow2(m + n) + Pow2(n - 1);
    StepAlgebra(Pow2(m + n), Pow2(n - 1), Pow2(s));
    DoublePow(191);
    DoublePow(190);
    DoublePow(189);
    Pow2Monotone(190 - m, 189);
  }

  lemma ZeroIsNormal(f: Format)
    requires WellFormed(f)
    ensures Gap(f, 0) == 0 && 0 < Expmax(f)
  {
    Pow2Monotone(1, f.exponent - 1);
    Pow2Values();
  }

  // Upwards in every format, one and a quarter of a unit is rounded to one.
  lemma AwayFails(f: Format)
    requires WellFormed(f)
    ensures
      var v := Pow2(191) + Pow2(189 - f.mantissa);
      && v < Pow2(192) && RoundedBits(f, Up, false, v, 0) == Pow2(f.mantissa)
      && Pow2(f.mantissa) * Denominator(f, 0) < v
  {
    hide Pow2, Shr, Low, Gap, GoesUp;
    var m, s, n := f.mantissa, f.exponent + f.explicit, 192 - Bits(f);
    var v, w := Pow2(191) + Pow2(189 - m), Pow2(191 - s) + Pow2(n - 2);
    ZeroIsNormal(f);
    Pow2Monotone(189 - m, 190);
    DoublePow(190);
    DoublePow(191);
    Pow2Add(191 - s, s);
    Pow2Add(n - 2, s);
    StepAlgebra(Pow2(191 - s), Pow2(n - 2), Pow2(s));
    Pow2Zero();
    Pow2Monotone(0, s);
    ShrUnique(v, s, w, 0);
    Pow2Add(m, n);
    DoublePow(n - 2);
    DoublePow(n - 1);
    ShrUnique(w, n, Pow2(m), Pow2(n - 2));
    QuarterStays(Pow2(m), Pow2(n - 2));
    Pow2Add(m, 191 - m);
  }

  lemma QuarterStays(kept: nat, quarter: nat)
    requires quarter > 0
    ensures !GoesUp(Up, false, kept, quarter, 4 * quarter)
  {
  }
}
