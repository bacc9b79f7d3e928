// The words of decimal constants.

module FloatWord {
  import opened Common
  import opened Arithmetic
  import opened FloatLimbs
  import opened FloatRound
  import opened FloatFormat
  import opened FloatPack
  import opened FloatNearest
  import opened FloatMultiply
  import opened FloatBinary
  import opened FloatReal
  import opened FloatPower
  import opened FloatConvert
  import opened FloatBoundary

  // The relative error of a conversion.
  function ErrorOf(sig: nat, pow: int): real {
    Units(1 + 2 * Fivefold(sig, pow))
  }

  // The word against the number that the first 52 digits stand for.  If that number is farther than the error of
  // the conversion from every rounding boundary, the word is the nearest to it exactly when RoundsRight holds; if
  // it is farther by twice what the code drops before it rounds, and its exponent is not Expmax, then it is.
  lemma DecimalNearest(f: Format, minus: bool, v: nat, exponent: int, sig: nat, pow: int)
    requires WellFormed(f) && Pow2(191) <= v < Pow2(192) && Fivefold(sig, pow) <= 0x10_0000
    requires Close(Real(v, exponent), KeptReal(sig, pow), ErrorOf(sig, pow))
    ensures
      var w, x, e := Packed(f, Near, false, minus, v, exponent - 1), KeptReal(sig, pow), ErrorOf(sig, pow);
      && (Far(f, x, e) ==> (NearestTo(f, w, x) <==> RoundsRight(f, v, exponent - 1)))
      && (exponent - 1 != Expmax(f) && Far(f, x, e + 2.0 * Slack(f, exponent - 1)) ==> NearestTo(f, w, x))
  {
    hide Pow2, Packed, RoundsRight, NearestTo, Far, Close, Real, KeptReal, Fivefold, Units, Expmax, Slack;
    var ex, x, e := exponent - 1, KeptReal(sig, pow), ErrorOf(sig, pow);
    KeptNonneg(sig, pow);
    SmallError(1 + 2 * Fivefold(sig, pow));
    MulNonneg(x, e);
    assert Real(v, ex + 1) == Real(v, exponent);
    if Far(f, x, e) {
      ApproximationPacked(f, minus, v, ex, x, e);
    }
    if ex != Expmax(f) && Far(f, x, e + 2.0 * Slack(f, ex)) {
      FarIsNearest(f, minus, v, ex, x, e);
    }
  }

  lemma KeptNonneg(sig: nat, pow: int)
    ensures KeptReal(sig, pow) >= 0.0
  {
    hide RPow, Padded, DigitCount;
    RatioNonneg(Padded(sig));
    MulNonneg(Ratio(Padded(sig)), RPow(10.0, pow + DigitCount(sig)));
  }

  lemma RatioNonneg(n: nat)
    ensures Ratio(n) >= 0.0
  {
  }

  lemma SmallError(n: nat)
    requires n <= 0x20_0001
    ensures 0.0 <= Units(n) <= 1.0
  {
    hide Pow2;
    UlpRange();
    UlpInverse();
    Pow2Monotone(30, 191);
    Pow2Values();
    MulLe(n as real, Pow2(191) as real, Ulp());
    MulNonneg(n as real, Ulp());
  }

  // The word of a decimal constant packs v * 2^(exponent - 192), which is as close to the number written as Flconvert
  // says.
  method DecimalConst(f: Format, mode: Rounding, daz: bool, minus: bool, text: string, result: array<byte>)
    returns (ghost v: nat, ghost exponent: int)
    requires WellFormed(f) && |text| <= 1_000_000 && result.Length == f.bytes
    modifies result
    ensures
      LittleEndian(result[..]) ==
      (if minus then Pow2(Bits(f) - 1) else 0) +
      if ReadDecimal(text, false, 0, 0) == Malformed then QuietNan(f) else Packed(f, mode, daz, minus, v, exponent - 1)
    ensures
      var n := ReadDecimal(text, false, 0, 0);
      n.Number? ==>
        && CloseBy(Real(v, exponent), KeptReal(n.sig, n.pow), 1 + 2 * Fivefold(n.sig, n.pow))
        && if n.sig == 0 then v == 0 else Pow2(191) <= v < Pow2(192)
    ensures
      var n := ReadDecimal(text, false, 0, 0);
      n.Number? && n.sig > 0 && mode == Near && !daz ==>
        var w, x, e := Packed(f, Near, false, minus, v, exponent - 1), KeptReal(n.sig, n.pow), ErrorOf(n.sig, n.pow);
        && (Far(f, x, e) ==> (NearestTo(f, w, x) <==> RoundsRight(f, v, exponent - 1)))
        && (exponent - 1 != Expmax(f) && Far(f, x, e + 2.0 * Slack(f, exponent - 1)) ==> NearestTo(f, w, x))
  {
    hide Pow2, Packed, QuietNan, LittleEndian, Close, Real, KeptReal, Fivefold, Normal, Val, Far, NearestTo, Slack,
      RoundsRight, Expmax, Units;
    var mant := new limb[LIMBS](_ => 0);
    var ok, e := Flconvert(text, mant);
    v, exponent := Val(mant[..]), e;
    NormalVal(mant[..]);
    ValBound(mant[..]);
    SixWeight();
    FloatConst(f, mode, daz, minus, ok, mant, e, result);
    ghost var n := ReadDecimal(text, false, 0, 0);
    if n.Number? && n.sig > 0 {
      DecimalNearest(f, minus, v, exponent, n.sig, n.pow);
    }
  }
}
