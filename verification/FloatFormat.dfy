// The IEEE formats that constants are packed into, and what a packed word stands for.

module FloatFormat {
  import opened Arithmetic
  import opened FloatLimbs
  import opened FloatRound

  // bytes, stored fraction bits, explicit integer bits and exponent bits.
  datatype Format = Format(bytes: nat, mantissa: nat, explicit: nat, exponent: nat)

  const FLOAT_8 := Format(1, 3, 0, 4)
  const FLOAT_16 := Format(2, 10, 0, 5)
  const FLOAT_B16 := Format(2, 7, 0, 8)
  const FLOAT_32 := Format(4, 23, 0, 8)
  const FLOAT_64 := Format(8, 52, 0, 11)
  const FLOAT_80 := Format(10, 63, 1, 15)
  const FLOAT_128 := Format(16, 112, 0, 15)

  // The sign, the exponent, the integer bit and the fraction fill the word; the exponent fits in 15 bits.
  predicate WellFormed(f: Format) {
    && 8 * f.bytes == 1 + f.exponent + f.explicit + f.mantissa
    && f.explicit <= 1 && 2 <= f.exponent <= 15 && f.mantissa >= 2 && 1 <= f.bytes <= 16
  }

  lemma TableIsWellFormed()
    ensures WellFormed(FLOAT_8) && WellFormed(FLOAT_16) && WellFormed(FLOAT_B16) && WellFormed(FLOAT_32)
    ensures WellFormed(FLOAT_64) && WellFormed(FLOAT_80) && WellFormed(FLOAT_128)
  {
  }

  function Bits(f: Format): nat {
    8 * f.bytes
  }

  function Expmax(f: Format): nat
    requires WellFormed(f)
  {
    Pow2(f.exponent - 1)
  }

  // The smallest unbiased exponent of a normal number.
  function Emin(f: Format): int
    requires WellFormed(f)
  {
    2 - Expmax(f)
  }

  // Biased exponent of a number below one times 2^(ex + 1); subnormal numbers have that of the smallest normal one.
  function Biased(f: Format, ex: int): nat
    requires WellFormed(f)
  {
    if ex < Emin(f) then 1 else ex - Emin(f) + 1
  }

  // How far below the smallest normal exponent ex is.
  function Gap(f: Format, ex: int): nat
    requires WellFormed(f)
  {
    if ex < Emin(f) then Emin(f) - ex else 0
  }

  function Scale(k: nat, n: nat): (r: nat)
    ensures r == k * Pow2(n)
  {
    MulMono(0, k, Pow2(n));
    k * Pow2(n)
  }

  // Words without the integer bit count magnitudes in order: fraction first, then exponent.
  function Layout(f: Format, l: nat): nat
    requires WellFormed(f)
  {
    var p := Pow2(f.mantissa);
    if f.explicit == 0 || Shr(l, f.mantissa) == 0 then l
    else 2 * Scale(Shr(l, f.mantissa), f.mantissa) + p + Low(l, f.mantissa)
  }

  function InfinityOf(f: Format): nat
    requires WellFormed(f)
  {
    Scale(Pow2(f.exponent) - 1, f.mantissa)
  }

  function QuietNan(f: Format): nat
    requires WellFormed(f)
  {
    Layout(f, InfinityOf(f)) + Pow2(f.mantissa - 1)
  }

  // The first mantissa bits of v that the format has room for, and whether they go up, after the shift of the code.
  function KeptBits(f: Format, v: nat, ex: int): nat
    requires WellFormed(f)
  {
    Kept(Shr(v, f.exponent + f.explicit + Gap(f, ex)), Bits(f))
  }

  predicate RoundsUp(f: Format, mode: Rounding, minus: bool, v: nat, ex: int)
    requires WellFormed(f)
  {
    var w := Shr(v, f.exponent + f.explicit + Gap(f, ex));
    GoesUp(mode, minus, Kept(w, Bits(f)), Rest(w, Bits(f)), Pow2(192 - Bits(f)))
  }

  function RoundedBits(f: Format, mode: Rounding, minus: bool, v: nat, ex: int): nat
    requires WellFormed(f)
  {
    KeptBits(f, v, ex) + if RoundsUp(f, mode, minus, v, ex) then 1 else 0
  }

  // The packed magnitude that the code gives the number v * 2^(exponent - 192), ex being exponent - 1. Numbers without
  // the top bit of v are zero.
  function Packed(f: Format, mode: Rounding, daz: bool, minus: bool, v: nat, ex: int): nat
    requires WellFormed(f)
  {
    var q := RoundedBits(f, mode, minus, v, ex);
    if v < Pow2(191) || (daz && ex < Emin(f) && q < Pow2(f.mantissa)) then 0
    else if ex > Expmax(f) || (q == 2 * Pow2(f.mantissa) && Biased(f, ex) + 2 >= Pow2(f.exponent)) then
      Layout(f, InfinityOf(f))
    else Layout(f, Scale(Biased(f, ex) - 1, f.mantissa) + q)
  }
}
