// float_const: rounding a mantissa into a format and storing the word.

module FloatPack {
  import opened Common
  import opened Arithmetic
  import opened FloatLimbs
  import opened FloatRound
  import opened FloatFormat

  function LittleEndian(s: seq<byte>): nat {
    if s == [] then 0 else s[0] + 256 * LittleEndian(s[1..])
  }

  // Stores the first bytes of a mantissa, last byte first.
  method Emit(mant: array<limb>, result: array<byte>, bytes: nat)
    requires mant.Length == LIMBS && 1 <= bytes <= 16 && result.Length == bytes
    modifies result
    ensures LittleEndian(result[..]) == Kept(Val(mant[..]), 8 * bytes)
  {
    hide Val, Shr, Low, Kept, Pow2;
    var i: int := bytes - 1;
    var n := 0;
    while i >= 0
      invariant -1 <= i < bytes && n == bytes - 1 - i
      invariant forall j :: 0 <= j < n ==> result[j] == Kept(Val(mant[..]), 8 * (bytes - j)) % 256
    {
      ByteAt(mant[..], i);
      result[n] := Shr(mant[i / 4], (3 - i % 4) * 8) % 256;
      n := n + 1;
      i := i - 1;
    }
    ValBound(mant[..]);
    SixWeight();
    BytesValue(result[..], Val(mant[..]), 0);
    assert result[..][0..] == result[..];
  }

  lemma ByteAt(s: seq<limb>, i: nat)
    requires |s| == LIMBS && i < 16
    ensures Shr(s[i / 4], (3 - i % 4) * 8) % 256 == Kept(Val(s), 8 * (i + 1)) % 256
  {
    hide Val, Shr, Low, Kept, Pow2;
    var k, p := i / 4, 8 * (i % 4) + 8;
    if p < 32 {
      KeptParts(s, k, p);
      Pow2Add(p - 8, 8);
      Pow2Values();
      BytePart(Val(s[..k]), Pow2(p - 8), Shr(s[k], 32 - p));
    } else {
      KeptParts(s, k + 1, 0);
      Pow2Zero();
      Pow2Values();
      ShrUnique(s[k + 1], 32, 0, s[k + 1]);
      ShrUnique(s[k], 0, s[k], 0);
      ValSnoc(s[..k + 1]);
      assert s[..k + 1][..k] == s[..k];
      BytePart(Val(s[..k]), 0x100_0000, s[k]);
    }
  }

  lemma BytePart(v: nat, a: nat, x: nat)
    ensures (v * (a * 256) + x) % 256 == x % 256
  {
    assert v * (a * 256) == v * a * 256;
    ByteMod(v * a, x);
  }

  lemma ByteMod(k: nat, x: nat)
    ensures (k * 256 + x) % 256 == x % 256
  {
  }

  lemma {:induction false} BytesValue(s: seq<byte>, v: nat, j: nat)
    requires j <= |s| <= 16 && v < Pow2(192)
    requires forall k :: 0 <= k < |s| ==> s[k] == Kept(v, 8 * (|s| - k)) % 256
    ensures LittleEndian(s[j..]) == Kept(v, 8 * (|s| - j))
    decreases |s| - j
  {
    hide Shr, Low, Kept, Pow2;
    var n := 8 * (|s| - j);
    if j == |s| {
      KeptBelow(v, 0);
      Pow2Zero();
    } else {
      BytesValue(s, v, j + 1);
      assert s[j..][1..] == s[j + 1..];
      KeptOf(v, n - 8, n);
      Pow2Values();
      ShrParts(Kept(v, n), 8);
      LowByte(Kept(v, n));
    }
  }

  lemma LowByte(x: nat)
    ensures Low(x, 8) == x % 256
  {
    Pow2Values();
  }

  lemma ShrPlus(v: nat, k: nat, c: nat)
    ensures Shr(v + c * Pow2(k), k) == Shr(v, k) + c
  {
    hide Shr, Low, Pow2;
    ShrParts(v, k);
    PlusAlgebra(Shr(v, k), Pow2(k), Low(v, k), c);
    MulMono(0, c, Pow2(k));
    ShrUnique(v + c * Pow2(k), k, Shr(v, k) + c, Low(v, k));
  }

  lemma PlusAlgebra(q: int, p: int, r: int, c: int)
    ensures q * p + r + c * p == (q + c) * p + r
  {
  }

  // Adding c to the bits that end at bit k of the first limb.
  lemma AddTop(s: seq<limb>, c: nat, k: nat, bits: nat, x: limb)
    requires |s| == LIMBS && k < 32 && k < bits <= 192 && x == s[0] + c * Pow2(31 - k)
    ensures Kept(Val(s[0 := x]), bits) == Kept(Val(s), bits) + c * Pow2(bits - 1 - k)
  {
    hide Shr, Low, Pow2, Val;
    ValUpdate(s, 0, x);
    Pow2Add(31 - k, 160);
    Pow2Add(bits - 1 - k, 192 - bits);
    MulAssoc(c, Pow2(31 - k), Weight(5));
    MulAssoc(c, Pow2(bits - 1 - k), Pow2(192 - bits));
    MulMono(0, c, Pow2(bits - 1 - k));
    ShrPlus(Val(s), 192 - bits, c * Pow2(bits - 1 - k));
  }

  // No bit up to bit k is set.
  lemma TopSmall(s: seq<limb>, k: nat, bits: nat)
    requires |s| == LIMBS && k < 31 && k < bits <= 192 && Kept(Val(s), bits) < Pow2(bits - 1 - k)
    ensures s[0] < Pow2(31 - k)
  {
    hide Shr, Low, Pow2, Val, Kept;
    var v := Val(s);
    KeptOf(v, k + 1, bits);
    ShrUnique(Kept(v, bits), bits - 1 - k, 0, Kept(v, bits));
    KeptParts(s, 0, k + 1);
    assert s[..0] == [];
    EmptyVal();
    ShrParts(s[0], 31 - k);
  }

  lemma EmptyVal()
    ensures Val([]) == 0
  {
  }

  // Bit k of a mantissa with at most k + 1 of its first bits in use.
  lemma BitSet(s: seq<limb>, k: nat, bits: nat)
    requires |s| == LIMBS && k < bits < 192 && Kept(Val(s), bits) < 2 * Pow2(bits - 1 - k)
    ensures TestBit(s, k) <==> Kept(Val(s), bits) >= Pow2(bits - 1 - k)
  {
    hide Shr, Low, Pow2, Val, Kept, TestBit;
    var v, n := Val(s), bits - 1 - k;
    LastKeptBit(s, (k + 1) / 32, (k + 1) % 32);
    KeptOf(v, k + 1, bits);
    if Kept(v, bits) >= Pow2(n) {
      ShrUnique(Kept(v, bits), n, 1, Kept(v, bits) - Pow2(n));
    } else {
      ShrUnique(Kept(v, bits), n, 0, Kept(v, bits));
    }
  }

  // Drops the integer bit where it is implicit, and puts in the exponent.
  method PutExponent(f: Format, mant: array<limb>, n: nat)
    requires WellFormed(f) && mant.Length == LIMBS && 0 < n < Pow2(f.exponent)
    requires Pow2(f.mantissa) <= Kept(Val(mant[..]), Bits(f)) < 2 * Pow2(f.mantissa)
    modifies mant
    ensures
      Kept(Val(mant[..]), Bits(f)) ==
      Layout(f, Scale(n - 1, f.mantissa) + old(Kept(Val(mant[..]), Bits(f))))
    ensures mant[0] < 0x8000_0000
  {
    hide Shr, Low, Pow2, Val, Kept, TestBit, Layout, Scale, Or;
    ghost var s, bits := mant[..], Bits(f);
    ghost var k := Kept(Val(s), bits);
    if f.explicit == 0 {
      ImplicitBit(f, s);
      mant[0] := mant[0] - Pow2(31 - f.exponent);
      assert s == mant[..][0 := s[0]];
      AddTop(mant[..], 1, f.exponent, bits, s[0]);
    }
    DoublePow(f.mantissa);
    ghost var t := mant[..];
    FieldFits(f, t, n);
    OrDisjoint(n, t[0], 31 - f.exponent);
    mant[0] := Or(n * Pow2(31 - f.exponent), mant[0]);
    assert mant[..] == t[0 := mant[0]];
    AddTop(t, n, f.exponent, bits, mant[0]);
    LayoutAt(f, n, k);
  }

  lemma ImplicitBit(f: Format, s: seq<limb>)
    requires WellFormed(f) && |s| == LIMBS && f.explicit == 0
    requires Pow2(f.mantissa) <= Kept(Val(s), Bits(f)) < 2 * Pow2(f.mantissa)
    ensures TestBit(s, f.exponent) && s[0] >= Pow2(31 - f.exponent)
  {
    hide Shr, Low, Pow2, Val, Kept, TestBit;
    BitSet(s, f.exponent, Bits(f));
    BitWeight(s, f.exponent);
  }

  lemma BitWeight(s: seq<limb>, k: nat)
    requires |s| == LIMBS && k < 32 && TestBit(s, k)
    ensures s[0] >= Pow2(31 - k)
  {
    hide Pow2, Shr, Low;
    ShrParts(s[0], 31 - k);
    AtLeastOne(Shr(s[0], 31 - k), Pow2(31 - k));
  }

  // The exponent field does not reach the sign, and nothing is in its place.
  lemma FieldFits(f: Format, t: seq<limb>, n: nat)
    requires WellFormed(f) && |t| == LIMBS && n < Pow2(f.exponent)
    requires Kept(Val(t), Bits(f)) < Pow2(f.explicit + f.mantissa)
    ensures t[0] + n * Pow2(31 - f.exponent) < 0x8000_0000 && t[0] < Pow2(31 - f.exponent)
  {
    hide Pow2, Val, Kept;
    TopSmall(t, f.exponent, Bits(f));
    BoundStep(n, Pow2(f.exponent), t[0], Pow2(31 - f.exponent));
    Pow2Add(f.exponent, 31 - f.exponent);
    Pow2Values();
  }

  lemma LayoutAt(f: Format, n: nat, k: nat)
    requires WellFormed(f) && n > 0 && Pow2(f.mantissa) <= k < 2 * Pow2(f.mantissa)
    ensures
      Layout(f, Scale(n - 1, f.mantissa) + k) ==
      n * Pow2(f.explicit + f.mantissa) + k - if f.explicit == 0 then Pow2(f.mantissa) else 0
  {
    hide Pow2, Shr, Low;
    var p := Pow2(f.mantissa);
    NextMultiple(n - 1, p);
    DoublePow(f.mantissa);
    ShrUnique(Scale(n - 1, f.mantissa) + k, f.mantissa, n, k - p);
    if f.explicit == 1 {
      MulAssoc(n, 2, p);
      MulAssoc(2, n, p);
    }
  }

  // Infinity, or a quiet NaN.
  method PutSpecial(f: Format, mant: array<limb>, nan: bool)
    requires WellFormed(f) && mant.Length == LIMBS
    modifies mant
    ensures
      Kept(Val(mant[..]), Bits(f)) == Layout(f, InfinityOf(f)) + if nan then Pow2(f.mantissa - 1) else 0
    ensures mant[0] < 0x8000_0000
  {
    hide Shr, Low, Pow2, Val, Kept, TestBit, Layout, Scale, Or, InfinityOf;
    ClearTail(mant, 0);
    ghost var s, bits, n := mant[..], Bits(f), Pow2(f.exponent) - 1;
    ValZeros(s);
    ZeroKept(bits);
    FieldFits(f, s, n);
    mant[0] := (Pow2(f.exponent) - 1) * Pow2(31 - f.exponent);
    assert mant[..] == s[0 := mant[0]];
    AddTop(s, n, f.exponent, bits, mant[0]);
    SpecialFits(f);
    if f.explicit == 1 {
      ghost var t := mant[..];
      mant[0] := Or(mant[0], Pow2(31 - (f.exponent + 1)));
      assert mant[..] == t[0 := mant[0]];
      AddTop(t, 1, f.exponent + 1, bits, mant[0]);
    }
    if nan {
      ghost var t := mant[..];
      mant[0] := Or(mant[0], Pow2(31 - (f.exponent + f.explicit + 1)));
      assert mant[..] == t[0 := mant[0]];
      AddTop(t, 1, f.exponent + f.explicit + 1, bits, mant[0]);
    }
    InfinityLayout(f);
  }

  lemma ZeroKept(bits: nat)
    requires bits <= 192
    ensures Kept(0, bits) == 0
  {
    ShrUnique(0, 192 - bits, 0, 0);
  }

  // The integer bit and the quiet bit lie below the exponent.
  lemma SpecialFits(f: Format)
    requires WellFormed(f)
    ensures
      var x, h, q := (Pow2(f.exponent) - 1) * Pow2(31 - f.exponent), Pow2(30 - f.exponent), Pow2(29 - f.exponent);
      && x >= 0 && x + h + q < 0x8000_0000 && Or(x, h) == x + h && Or(x + h, q) == x + h + q
  {
    hide Pow2, Or;
    var n, h, q := Pow2(f.exponent) - 1, Pow2(30 - f.exponent), Pow2(29 - f.exponent);
    DoublePow(30 - f.exponent);
    DoublePow(29 - f.exponent);
    MulMono(0, n, 2 * h);
    BoundStep(n, Pow2(f.exponent), h + q, 2 * h);
    Pow2Add(f.exponent, 31 - f.exponent);
    Pow2Values();
    OrDisjoint(n, h, 31 - f.exponent);
    TwoBits(n, h);
    OrDisjoint(2 * n + 1, q, 30 - f.exponent);
  }

  lemma TwoBits(n: int, h: int)
    ensures (2 * n + 1) * h == n * (2 * h) + h
  {
  }

  lemma InfinityLayout(f: Format)
    requires WellFormed(f)
    ensures
      Layout(f, InfinityOf(f)) ==
      (Pow2(f.exponent) - 1) * Pow2(f.explicit + f.mantissa) + if f.explicit == 0 then 0 else Pow2(f.mantissa)
  {
    hide Pow2, Shr, Low, Layout;
    Pow2Monotone(2, f.exponent);
    FourUp();
    var n, p := Pow2(f.exponent) - 1, Pow2(f.mantissa);
    LayoutAt(f, n, p);
    NextMultiple(n - 1, p);
  }

  lemma FourUp()
    ensures Pow2(2) == 4
  {
    assert Pow2(0) == 1 && Pow2(1) == 2;
  }

  // Both shifts of the code leave the first mantissa + 1 bits, and fewer below the normal exponents.
  lemma KeptBitsRange(f: Format, v: nat, ex: int)
    requires WellFormed(f) && Pow2(191) <= v < Pow2(192)
    ensures KeptBits(f, v, ex) == Shr(v, 191 - f.mantissa + Gap(f, ex))
    ensures Gap(f, ex) == 0 ==> Pow2(f.mantissa) <= KeptBits(f, v, ex) < 2 * Pow2(f.mantissa)
    ensures Gap(f, ex) > 0 ==> KeptBits(f, v, ex) < Pow2(f.mantissa)
  {
    hide Pow2, Shr, Low, Gap;
    var m, g := f.mantissa, Gap(f, ex);
    var q, n := KeptBits(f, v, ex), 191 - m + g;
    ShrShr(v, f.exponent + f.explicit + g, 192 - Bits(f));
    ShrParts(v, n);
    DoublePow(m);
    Pow2Add(m + 1, 191 - m);
    Pow2Add(m, 191 - m);
    if g > 0 {
      Pow2Monotone(192, m + n);
      Pow2Add(m, n);
      if q >= Pow2(m) {
        MulMono(Pow2(m), q, Pow2(n));
      }
    } else {
      if q >= Pow2(m + 1) {
        MulMono(Pow2(m + 1), q, Pow2(n));
      }
      if q < Pow2(m) {
        BoundStep(q, Pow2(m), Low(v, n), Pow2(n));
      }
    }
  }

  lemma NoWrap(f: Format)
    requires WellFormed(f)
    ensures 2 * Pow2(f.mantissa) < Pow2(Bits(f)) && Pow2(Bits(f) - 1 - (f.exponent + f.explicit)) == Pow2(f.mantissa)
    ensures 2 * Pow2(f.mantissa) == Pow2(f.mantissa + 1) && Pow2(f.exponent) == 2 * Expmax(f)
  {
    hide Pow2;
    DoublePow(f.mantissa);
    DoublePow(f.mantissa + 1);
    DoublePow(f.exponent - 1);
    Pow2Monotone(f.mantissa + 2, Bits(f));
  }

  // The shift and the rounding, whatever the exponent.
  method ShiftAndRound(f: Format, mode: Rounding, minus: bool, mant: array<limb>, ghost ex: int, shift: nat)
    requires WellFormed(f) && mant.Length == LIMBS && Val(mant[..]) >= Pow2(191)
    requires shift == f.exponent + f.explicit + Gap(f, ex)
    modifies mant
    ensures Kept(Val(mant[..]), Bits(f)) == RoundedBits(f, mode, minus, old(Val(mant[..])), ex)
    ensures
      var q := RoundedBits(f, mode, minus, old(Val(mant[..])), ex);
      if Gap(f, ex) == 0 then Pow2(f.mantissa) <= q <= 2 * Pow2(f.mantissa) else q <= Pow2(f.mantissa)
  {
    hide Shr, Low, Pow2, Val, Kept, Rest, Gap, GoesUp;
    ghost var v := Val(mant[..]);
    ValBound(mant[..]);
    SixWeight();
    ShiftRight(mant, shift);
    ShrDef(v, shift);
    var over := Round(mode, minus, mant, Bits(f));
    KeptBitsRange(f, v, ex);
    NoWrap(f);
    ghost var q := KeptBits(f, v, ex);
    DivUnique(q + 1, Pow2(Bits(f)), 0, q + 1);
  }

  lemma ShrDef(v: nat, k: nat)
    ensures Shr(v, k) == v / Pow2(k)
  {
  }

  method PackNormal(f: Format, mode: Rounding, ghost daz: bool, minus: bool, mant: array<limb>, ex: int)
    requires WellFormed(f) && mant.Length == LIMBS && Val(mant[..]) >= Pow2(191) && Emin(f) <= ex <= Expmax(f)
    modifies mant
    ensures Kept(Val(mant[..]), Bits(f)) == Packed(f, mode, daz, minus, old(Val(mant[..])), ex)
    ensures mant[0] < 0x8000_0000
  {
    hide Shr, Low, Pow2, Val, Kept, TestBit, Layout, RoundedBits, Scale;
    ghost var v := Val(mant[..]);
    NoWrap(f);
    var exponent := ex + Expmax(f) - 1;
    ShiftAndRound(f, mode, minus, mant, ex, f.exponent + f.explicit);
    ghost var q := RoundedBits(f, mode, minus, v, ex);
    CarryBit(f, mant[..], q);
    if TestBit(mant[..], f.exponent + f.explicit - 1) {
      ghost var u := Val(mant[..]);
      ShiftRight(mant, 1);
      HalveKept(f, u);
      exponent := exponent + 1;
      if exponent >= 2 * Expmax(f) - 1 {
        PutSpecial(f, mant, false);
        return;
      }
      CarryScale(exponent - 1, f.mantissa);
    }
    PutExponent(f, mant, exponent);
  }

  lemma CarryScale(n: nat, m: nat)
    requires n > 0
    ensures Scale(n, m) + Pow2(m) == Scale(n - 1, m) + 2 * Pow2(m)
  {
    NextMultiple(n - 1, Pow2(m));
  }

  // The bit in front of the leading one says that rounding carried.
  lemma CarryBit(f: Format, s: seq<limb>, q: nat)
    requires WellFormed(f) && |s| == LIMBS && Kept(Val(s), Bits(f)) == q <= 2 * Pow2(f.mantissa)
    ensures TestBit(s, f.exponent + f.explicit - 1) <==> q == 2 * Pow2(f.mantissa)
  {
    hide Shr, Low, Pow2, Val, Kept, TestBit;
    DoublePow(f.mantissa);
    BitSet(s, f.exponent + f.explicit - 1, Bits(f));
  }

  lemma HalveKept(f: Format, u: nat)
    requires WellFormed(f) && Kept(u, Bits(f)) == 2 * Pow2(f.mantissa)
    ensures u / Pow2(1) >= 0 && Kept(u / Pow2(1), Bits(f)) == Pow2(f.mantissa)
  {
    hide Pow2, Shr, Low;
    Pow2Values();
    ShrDef(u, 1);
    ShrShr(u, 1, 192 - Bits(f));
    ShrShr(u, 192 - Bits(f), 1);
    ShrUnique(2 * Pow2(f.mantissa), 1, Pow2(f.mantissa), 0);
  }

  method PackDenormal(f: Format, mode: Rounding, daz: bool, minus: bool, mant: array<limb>, ex: int)
    requires WellFormed(f) && mant.Length == LIMBS && Val(mant[..]) >= Pow2(191) && ex < Emin(f)
    modifies mant
    ensures Kept(Val(mant[..]), Bits(f)) == Packed(f, mode, daz, minus, old(Val(mant[..])), ex)
    ensures mant[0] < 0x8000_0000
  {
    hide Shr, Low, Pow2, Val, Kept, TestBit, Layout, RoundedBits, Scale;
    ghost var v := Val(mant[..]);
    NoWrap(f);
    Pow2Monotone(1, f.exponent - 1);
    Pow2Values();
    var shift := -(ex + Expmax(f) - 2 - f.exponent) + f.explicit;
    ShiftAndRound(f, mode, minus, mant, ex, shift);
    ghost var q := RoundedBits(f, mode, minus, v, ex);
    BitSet(mant[..], f.exponent + f.explicit, Bits(f));
    ScaleZero(f.mantissa);
    if TestBit(mant[..], f.exponent + f.explicit) {
      PutExponent(f, mant, 1);
    } else {
      SmallLayout(f, q);
      var zero := IsZero(mant);
      if daz || zero {
        ZeroKept(Bits(f));
        ClearTail(mant, 0);
        ValZeros(mant[..]);
        SmallLayout(f, 0);
      } else {
        SmallTop(f, mant[..]);
      }
    }
  }

  lemma ScaleZero(m: nat)
    ensures Scale(0, m) == 0
  {
  }

  lemma SmallLayout(f: Format, l: nat)
    requires WellFormed(f) && l < Pow2(f.mantissa)
    ensures Layout(f, l) == l
  {
    hide Pow2, Shr, Low;
    ShrUnique(l, f.mantissa, 0, l);
  }

  lemma SmallTop(f: Format, s: seq<limb>)
    requires WellFormed(f) && |s| == LIMBS && Kept(Val(s), Bits(f)) < Pow2(f.mantissa)
    ensures s[0] < 0x8000_0000
  {
    hide Pow2, Val, Kept;
    TopSmall(s, f.exponent + f.explicit, Bits(f));
    Pow2Values();
    Pow2Monotone(31 - (f.exponent + f.explicit), 31);
  }

  method IsZero(mant: array<limb>) returns (zero: bool)
    ensures zero <==> forall k :: 0 <= k < mant.Length ==> mant[k] == 0
    ensures zero ==> Val(mant[..]) == 0
  {
    for i := 0 to mant.Length
      invariant forall k :: 0 <= k < i ==> mant[k] == 0
    {
      if mant[i] != 0 {
        return false;
      }
    }
    ValZeros(mant[..]);
    return true;
  }

  // The stored bytes are the packed magnitude below the sign, or a quiet NaN for a malformed constant.
  method FloatConst(f: Format, mode: Rounding, daz: bool, minus: bool,
                    ok: bool, mant: array<limb>, exponent: int, result: array<byte>)
    requires WellFormed(f) && mant.Length == LIMBS && result.Length == f.bytes
    modifies mant, result
    ensures
      LittleEndian(result[..]) ==
      (if minus then Pow2(Bits(f) - 1) else 0) +
      if ok then Packed(f, mode, daz, minus, old(Val(mant[..])), exponent - 1) else QuietNan(f)
  {
    hide Shr, Low, Pow2, Val, Kept, TestBit, Layout, RoundedBits, Scale, InfinityOf;
    ghost var v := Val(mant[..]);
    TopOfMantissa(mant[..]);
    Pow2Monotone(1, f.exponent - 1);
    Pow2Values();
    var ex, expmax := exponent - 1, Pow2(f.exponent - 1);
    if !ok {
      PutSpecial(f, mant, true);
    } else if mant[0] < 0x8000_0000 {
      ClearTail(mant, 0);
      ValZeros(mant[..]);
      ZeroKept(Bits(f));
    } else if ex >= 2 - expmax && ex <= expmax {
      PackNormal(f, mode, daz, minus, mant, ex);
    } else if ex > 0 {
      PutSpecial(f, mant, false);
    } else {
      PackDenormal(f, mode, daz, minus, mant, ex);
    }
    ghost var t := mant[..];
    if minus {
      mant[0] := mant[0] + 0x8000_0000;
      assert mant[..] == t[0 := mant[0]];
      AddTop(t, 1, 0, Bits(f), mant[0]);
    }
    Emit(mant, result, f.bytes);
  }

  lemma TopOfMantissa(s: seq<limb>)
    requires |s| == LIMBS
    ensures s[0] >= 0x8000_0000 <==> Val(s) >= Pow2(191)
  {
    hide Pow2, Val, Kept, Shr, Low;
    var v := Val(s);
    KeptParts(s, 0, 1);
    Pow2Values();
    assert s[..0] == [];
    EmptyVal();
    ShrParts(s[0], 31);
    ShrParts(v, 191);
  }
}
