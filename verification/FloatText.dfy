// From the text of a binary, octal or hexadecimal constant to the stored word.

module FloatText {
  import opened Common
  import opened Arithmetic
  import opened FloatLimbs
  import opened FloatRound
  import opened FloatFormat
  import opened FloatPack
  import opened FloatNearest
  import opened FloatBinary

  method BinaryConst(f: Format, mode: Rounding, daz: bool, minus: bool, text: string, bits: nat, result: array<byte>)
    requires WellFormed(f) && 1 <= bits <= 4 && result.Length == f.bytes
    modifies result
    ensures
      LittleEndian(result[..]) ==
      (if minus then Pow2(Bits(f) - 1) else 0) +
      match ReadBinary(text, bits, false, 0, 0)
      case Malformed => QuietNan(f)
      case Number(sig, pow) => Packed(f, mode, daz, minus, TopBits(sig), ExponentOfNumber(sig, pow))
  {
    hide Pow2, Packed, QuietNan, LittleEndian, TopBits, BitLength;
    var mant := new limb[LIMBS](_ => 0);
    var ok, exponent := FlconvertBin(text, bits, mant);
    FloatConst(f, mode, daz, minus, ok, mant, exponent, result);
  }

  // The exponent of the leading bit of sig * 2^pow.
  function ExponentOfNumber(sig: nat, pow: int): int {
    (if sig == 0 then 0 else BitLength(sig) + pow) - 1
  }

  // sig * 2^pow as a fraction, in units of the smallest subnormal number.
  function ExactNumerator(f: Format, sig: nat, pow: int): nat
    requires WellFormed(f)
  {
    var p := pow - Emin(f) + f.mantissa;
    Scale(sig, if p < 0 then 0 else p)
  }

  function ExactDenominator(f: Format, pow: int): nat
    requires WellFormed(f)
  {
    var p := pow - Emin(f) + f.mantissa;
    Pow2(if p < 0 then -p else 0)
  }

  // Nothing behind the first 192 bits.
  predicate Fits(sig: nat) {
    BitLength(sig) <= 192 || Low(sig, BitLength(sig) - 192) == 0
  }

  // The word of a constant whose significand fits is nearest to the number written exactly when RoundsRight holds.
  lemma BinaryConstantNearest(f: Format, minus: bool, sig: nat, pow: int)
    requires WellFormed(f) && sig > 0 && Fits(sig)
    ensures
      var ex := ExponentOfNumber(sig, pow);
      Nearest(f, Packed(f, Near, false, minus, TopBits(sig), ex), ExactNumerator(f, sig, pow), ExactDenominator(f, pow))
      <==> RoundsRight(f, TopBits(sig), ex)
  {
    hide Pow2, Packed, TopBits, BitLength, Nearest, RoundsRight, Numerator, Denominator, ExactNumerator,
      ExactDenominator, ExponentOfNumber;
    var ex := ExponentOfNumber(sig, pow);
    TopBitsRange(sig);
    PackedNearest(f, minus, TopBits(sig), ex);
    SameNumber(f, sig, pow);
    NearestSame(f, Packed(f, Near, false, minus, TopBits(sig), ex), Numerator(f, TopBits(sig), ex), Denominator(f, ex),
      ExactNumerator(f, sig, pow), ExactDenominator(f, pow));
  }

  lemma TopBitsRange(sig: nat)
    requires sig > 0
    ensures Pow2(191) <= TopBits(sig) < Pow2(192)
    ensures Fits(sig) ==> TopBits(sig) * Pow2(BitLength(sig)) == sig * Pow2(192)
  {
    hide Pow2, BitLength, Shr, Low;
    var n := BitLength(sig);
    BitLengthBounds(sig);
    if n <= 192 {
      Pow2Add(n - 1, 192 - n);
      Pow2Add(n, 192 - n);
      MulMono(Pow2(n - 1), sig, Pow2(192 - n));
      Strict(sig, Pow2(n), Pow2(192 - n));
      MulAssoc(sig, Pow2(192 - n), Pow2(n));
    } else {
      var q := Shr(sig, n - 192);
      ShrParts(sig, n - 192);
      Pow2Add(191, n - 192);
      Pow2Add(192, n - 192);
      if q < Pow2(191) {
        BoundStep(q, Pow2(191), Low(sig, n - 192), Pow2(n - 192));
      }
      if q >= Pow2(192) {
        MulMono(Pow2(192), q, Pow2(n - 192));
      }
      Commute(q, Pow2(192), Pow2(n - 192));
    }
  }

  lemma Commute(q: int, a: int, b: int)
    ensures q * (a * b) == q * b * a
  {
  }

  lemma SameNumber(f: Format, sig: nat, pow: int)
    requires WellFormed(f) && sig > 0 && Fits(sig)
    ensures
      var ex := ExponentOfNumber(sig, pow);
      && Denominator(f, ex) > 0 && ExactDenominator(f, pow) > 0
      && Numerator(f, TopBits(sig), ex) * ExactDenominator(f, pow) ==
         ExactNumerator(f, sig, pow) * Denominator(f, ex)
  {
    hide Pow2, TopBits, BitLength, Emin, Fits;
    var v, n, p, ex := TopBits(sig), BitLength(sig), pow - Emin(f) + f.mantissa, ExponentOfNumber(sig, pow);
    var a, b, c, d := Biased(f, ex) - 1, if p < 0 then -p else 0, if p < 0 then 0 else p, 191 - f.mantissa + Gap(f, ex);
    TopBitsRange(sig);
    BitLengthBounds(sig);
    Pow2Add(192, a + b);
    Pow2Add(a, b);
    Pow2Add(c, d);
    Pow2Add(c + d, n);
    assert 192 + (a + b) == c + d + n;
    SameAlgebra(v, Pow2(n), sig, Pow2(192), Pow2(a), Pow2(b), Pow2(c), Pow2(d));
  }

  // v k = s t and t (a b) = (c d) k give v a b = s c d.
  lemma SameAlgebra(v: int, k: int, s: int, t: int, a: int, b: int, c: int, d: int)
    requires v * k == s * t && t * (a * b) == c * d * k && k > 0
    ensures v * a * b == s * c * d
  {
    var x, y := a * b, c * d;
    assert v * k * x == s * t * x;
    MulAssoc(s, t, x);
    MulAssoc(s, y, k);
    Commute(v, x, k);
    MulAssoc(v, k, x);
    MulAssoc(v, x, k);
    Cancel(v * x, s * y, k);
    MulAssoc(v, a, b);
    MulAssoc(s, c, d);
  }

  lemma Cancel(a: int, b: int, k: int)
    requires a * k == b * k && k > 0
    ensures a == b
  {
  }

  // The nearest word depends on the number only, not on the fraction that it is given by.
  lemma NearestSame(f: Format, w: nat, n1: nat, d1: nat, n2: nat, d2: nat)
    requires WellFormed(f) && d1 > 0 && d2 > 0 && n1 * d2 == n2 * d1
    ensures Nearest(f, w, n1, d1) <==> Nearest(f, w, n2, d2)
  {
    hide Beats, Canonical;
    forall u: nat | Canonical(f, u) ensures Beats(f, w, u, n1, d1) <==> Beats(f, w, u, n2, d2) {
      BeatsSame(f, w, u, n1, d1, n2, d2);
    }
  }

  lemma BeatsSame(f: Format, w: nat, u: nat, n1: nat, d1: nat, n2: nat, d2: nat)
    requires WellFormed(f) && d1 > 0 && d2 > 0 && n1 * d2 == n2 * d1
    ensures Beats(f, w, u, n1, d1) <==> Beats(f, w, u, n2, d2)
  {
    hide Magnitude, Times, Distance;
    var a, b := Magnitude(f, w), Magnitude(f, u);
    TimesDef(a, d1);
    TimesDef(b, d1);
    TimesDef(a, d2);
    TimesDef(b, d2);
    var x1, y1 := Distance(Times(a, d1), n1), Distance(Times(b, d1), n1);
    var x2, y2 := Distance(Times(a, d2), n2), Distance(Times(b, d2), n2);
    DistanceScaled(a, d1, n1, d2);
    DistanceScaled(a, d2, n2, d1);
    DistanceScaled(b, d1, n1, d2);
    DistanceScaled(b, d2, n2, d1);
    SwapFactors(a, d1, d2);
    SwapFactors(b, d1, d2);
    SameOrder(x1, y1, d2, x2, y2, d1);
  }

  lemma SwapFactors(a: int, b: int, c: int)
    ensures a * b * c == a * c * b
  {
  }

  lemma SameOrder(x1: nat, y1: nat, c1: nat, x2: nat, y2: nat, c2: nat)
    requires c1 > 0 && c2 > 0 && x1 * c1 == x2 * c2 && y1 * c1 == y2 * c2
    ensures (x1 < y1 <==> x2 < y2) && (x1 == y1 <==> x2 == y2)
  {
    Strict(x1, y1, c1);
    Strict(y1, x1, c1);
    Strict(x2, y2, c2);
    Strict(y2, x2, c2);
  }

  lemma DistanceScaled(a: nat, d: nat, n: nat, c: nat)
    requires c > 0 && n * c >= 0 && a * d * c >= 0
    ensures Distance(Times(a, d), n) * c == Distance(a * d * c, n * c)
  {
    TimesDef(a, d);
    DistanceTimes(Times(a, d), n, c);
  }

  lemma DistanceTimes(x: nat, y: nat, c: nat)
    requires c > 0 && x * c >= 0 && y * c >= 0
    ensures Distance(x, y) * c == Distance(x * c, y * c)
  {
    Subtract(x, y, c);
    Subtract(y, x, c);
    Strict(x, y, c);
    Strict(y, x, c);
  }
}
