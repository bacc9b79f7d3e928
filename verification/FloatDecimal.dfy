// The first half of ieee_flconvert: reading a decimal constant and turning its digits into bits by doubling.
// The digit buffer holds a decimal fraction; each pass over it doubles the fraction and yields one bit, so
// that the bits so far and what is left in the buffer always add up to the fraction that was read.

module FloatDecimal {
  import opened Arithmetic
  import opened FloatLimbs
  import opened FloatRound
  import opened FloatBinary

  type digit = x: nat | x < 10

  const DIGITS: nat := 52

  function Pow10(n: nat): (r: nat)
    ensures r > 0
  {
    if n == 0 then 1 else 10 * Pow10(n - 1)
  }

  lemma {:induction false} Pow10Add(a: nat, b: nat)
    ensures Pow10(a + b) == Pow10(a) * Pow10(b)
  {
    if a > 0 {
      Pow10Add(a - 1, b);
      assert Pow10(a + b) == 10 * Pow10(a - 1 + b);
      MulAssoc(10, Pow10(a - 1), Pow10(b));
    }
  }

  function DecVal(s: seq<digit>): nat {
    if s == [] then 0 else DecVal(s[..|s| - 1]) * 10 + s[|s| - 1]
  }

  lemma {:induction false} DecValBound(s: seq<digit>)
    ensures DecVal(s) < Pow10(|s|)
  {
    if s != [] {
      DecValBound(s[..|s| - 1]);
    }
  }

  lemma {:induction false} DecValAppend(a: seq<digit>, b: seq<digit>)
    ensures DecVal(a + b) == DecVal(a) * Pow10(|b|) + DecVal(b)
    decreases |b|
  {
    if b == [] {
      assert a + b == a;
    } else {
      var c := b[..|b| - 1];
      assert (a + b)[..|a + b| - 1] == a + c;
      DecValAppend(a, c);
      TenAlgebra(DecVal(a), Pow10(|c|), DecVal(c));
    }
  }

  lemma TenAlgebra(v: int, w: int, c: int)
    ensures (v * w + c) * 10 == v * (10 * w) + c * 10
  {
  }

  lemma DecValOne(x: digit)
    ensures DecVal([x]) == x
  {
    assert [x][..0] == [];
  }

  // The digits as a fraction of 10^52.
  function Fraction(s: seq<digit>): nat
    requires |s| <= DIGITS
  {
    MulMono(0, DecVal(s), Pow10(DIGITS - |s|));
    DecVal(s) * Pow10(DIGITS - |s|)
  }

  lemma FractionBound(s: seq<digit>)
    requires |s| <= DIGITS
    ensures Fraction(s) < Pow10(DIGITS)
  {
    DecValBound(s);
    Pow10Add(|s|, DIGITS - |s|);
    Strict(DecVal(s), Pow10(|s|), Pow10(DIGITS - |s|));
  }

  // One pass of doubling from the last digit: the carry is the integer part of twice the fraction.
  method DoubleDigits(digits: array<digit>, p: nat) returns (carry: nat)
    requires digits.Length == DIGITS && p <= DIGITS
    modifies digits
    ensures carry <= 1
    ensures Fraction(digits[..p]) + carry * Pow10(DIGITS) == 2 * old(Fraction(digits[..p]))
  {
    hide DecVal, Pow10, Fraction;
    ghost var s := digits[..];
    carry := 0;
    var r: int := p;
    assert s[p..p] == [] && digits[..][p..p] == [];
    NoDigits();
    while r > 0
      invariant 0 <= r <= p && carry <= 1
      invariant digits[..r] == s[..r]
      invariant DecVal(digits[..][r..p]) + carry * Pow10(p - r) == 2 * DecVal(s[r..p])
    {
      r := r - 1;
      ghost var t, before := digits[..], carry;
      var i := 2 * digits[r] + carry;
      if i >= 10 {
        carry := 1;
        i := i - 10;
      } else {
        carry := 0;
      }
      digits[r] := i;
      assert digits[..][r + 1..p] == t[r + 1..p];
      assert s[r] == s[..r + 1][r] == t[..r + 1][r] == t[r];
      DoubleStep(s, digits[..], r, p, before, carry);
    }
    assert digits[..p] == digits[..][0..p] && s[..p] == s[0..p];
    DoubleFraction(digits[..p], carry, s[..p]);
  }

  lemma NoDigits()
    ensures DecVal([]) == 0
  {
  }

  lemma DoubleStep(s: seq<digit>, t: seq<digit>, r: nat, p: nat, before: nat, carry: nat)
    requires |s| == |t| == DIGITS && r < p <= DIGITS && t[r] + 10 * carry == 2 * s[r] + before
    requires DecVal(t[r + 1..p]) + before * Pow10(p - r - 1) == 2 * DecVal(s[r + 1..p])
    ensures DecVal(t[r..p]) + carry * Pow10(p - r) == 2 * DecVal(s[r..p])
  {
    hide DecVal;
    assert s[r..p] == [s[r]] + s[r + 1..p] && t[r..p] == [t[r]] + t[r + 1..p];
    DecValAppend([s[r]], s[r + 1..p]);
    DecValAppend([t[r]], t[r + 1..p]);
    DecValOne(s[r]);
    DecValOne(t[r]);
    DoubleAlgebra(t[r], carry, s[r], before, Pow10(p - r - 1));
  }

  lemma DoubleAlgebra(t: int, c: int, s: int, b: int, w: int)
    requires t + 10 * c == 2 * s + b
    ensures t * w + c * (10 * w) == 2 * (s * w) + b * w
  {
    assert (t + 10 * c) * w == t * w + c * (10 * w);
    assert (2 * s + b) * w == 2 * (s * w) + b * w;
  }

  lemma DoubleFraction(t: seq<digit>, carry: nat, s: seq<digit>)
    requires |t| == |s| <= DIGITS && DecVal(t) + carry * Pow10(|s|) == 2 * DecVal(s)
    ensures Fraction(t) + carry * Pow10(DIGITS) == 2 * Fraction(s)
  {
    hide DecVal, Pow10;
    var p := |s|;
    Pow10Add(p, DIGITS - p);
    FractionAlgebra(DecVal(t), carry, Pow10(p), Pow10(DIGITS - p), DecVal(s));
  }

  lemma FractionAlgebra(v: int, c: int, a: int, w: int, u: int)
    requires v + c * a == 2 * u
    ensures v * w + c * (a * w) == 2 * (u * w)
  {
    assert (v + c * a) * w == v * w + c * (a * w);
    assert 2 * u * w == 2 * (u * w);
  }

  // Zeros at the end do not count.
  method StripZeros(digits: array<digit>, p: nat) returns (p': nat)
    requires digits.Length == DIGITS && p <= DIGITS
    ensures p' <= p && Fraction(digits[..p']) == Fraction(digits[..p])
    ensures p' == 0 <==> Fraction(digits[..p]) == 0
  {
    hide DecVal, Pow10, Fraction;
    p' := p;
    while p' > 0 && digits[p' - 1] == 0
      invariant p' <= p && Fraction(digits[..p']) == Fraction(digits[..p])
    {
      StripOne(digits[..p']);
      assert digits[..p'][..p' - 1] == digits[..p' - 1];
      p' := p' - 1;
    }
    LastDigit(digits[..p']);
  }

  lemma StripOne(s: seq<digit>)
    requires 0 < |s| <= DIGITS && s[|s| - 1] == 0
    ensures Fraction(s[..|s| - 1]) == Fraction(s)
  {
    var n := DIGITS - |s|;
    MulAssoc(DecVal(s[..|s| - 1]), 10, Pow10(n));
  }

  lemma LastDigit(s: seq<digit>)
    requires |s| <= DIGITS && (s == [] || s[|s| - 1] != 0)
    ensures s == [] <==> Fraction(s) == 0
  {
    if s != [] {
      AtLeastOne(DecVal(s), Pow10(DIGITS - |s|));
    }
  }

  // The mantissa is the fraction num / 10^52 without its leading zero bits, cut after 192 bits.
  ghost predicate FractionBits(v: nat, zeros: nat, num: nat) {
    if num == 0 then v == 0
    else
      && Pow2(191) <= v < Pow2(192)
      && v * Pow10(DIGITS) <= num * Pow2(192 + zeros) < (v + 1) * Pow10(DIGITS)
  }

  // The first w bits of the fraction behind zeros zero bits are bits, and rest / 10^52 units of the last remain.
  predicate Doubled(num: nat, w: nat, zeros: nat, bits: nat, rest: nat) {
    && rest < Pow10(DIGITS)
    && num * Pow2(w + zeros) == bits * Pow10(DIGITS) + rest
    && if w == 0 then bits == 0 else Pow2(w - 1) <= bits < Pow2(w)
  }

  // The bits fill the limbs from the top.
  predicate Filled(s: seq<limb>, w: nat, bits: nat) {
    && |s| == LIMBS && w <= 192
    && if w == 192 then Val(s) == bits
       else Val(s[..w / 32 + 1]) == bits * Pow2(32 - w % 32) && forall j :: w / 32 < j < LIMBS ==> s[j] == 0
  }

  lemma DoubledStep(num: nat, w: nat, zeros: nat, bits: nat, rest: nat, rest': nat, carry: nat)
    requires Doubled(num, w, zeros, bits, rest) && carry <= 1 && rest' < Pow10(DIGITS)
    requires rest' + carry * Pow10(DIGITS) == 2 * rest
    ensures
      if w == 0 && carry == 0 then Doubled(num, 0, zeros + 1, 0, rest')
      else Doubled(num, w + 1, zeros, 2 * bits + carry, rest')
  {
    hide Pow2, Pow10;
    DoublePow(w + zeros);
    DoublePow(w);
    if w > 0 {
      DoublePow(w - 1);
    } else {
      Pow2Zero();
    }
    TwiceAlgebra(num, Pow2(w + zeros), bits, Pow10(DIGITS), rest, carry);
  }

  lemma TwiceAlgebra(n: int, p: int, b: int, d: int, r: int, c: int)
    requires n * p == b * d + r
    ensures n * (2 * p) == (2 * b + c) * d + (2 * r - c * d)
  {
  }

  method StoreBit(mant: array<limb>, m: nat, bit: nat, ghost w: nat, ghost bits: nat)
    requires mant.Length == LIMBS && w < 192 && m == w / 32 && bit == Pow2(31 - w % 32)
    requires Filled(mant[..], w, bits)
    modifies mant
    ensures Filled(mant[..], w + 1, 2 * bits + 1)
  {
    hide Val, Pow2, Or;
    ghost var s, n := mant[..], 32 - w % 32;
    DoublePow(n - 1);
    ghost var c := FreeBits(s, m, n, bits);
    OrDisjoint(c, bit, n);
    StoreFits(s[m], c, n);
    mant[m] := Or(mant[m], bit);
    assert mant[..m] == s[..m];
    StoreFilled(s, mant[..], w, bits, 1);
  }

  // A limb whose last n bits are free takes one more bit.
  lemma StoreFits(x: limb, c: nat, n: nat)
    requires 0 < n <= 32 && x == c * Pow2(n)
    ensures x + Pow2(n - 1) < LIMB
  {
    hide Pow2;
    Pow2Values();
    Pow2Add(n, 32 - n);
    DoublePow(n - 1);
    if c >= Pow2(32 - n) {
      MulMono(Pow2(32 - n), c, Pow2(n));
    }
    MulMono(c + 1, Pow2(32 - n), Pow2(n));
    NextMultiple(c, Pow2(n));
  }

  lemma StoreFilled(s: seq<limb>, t: seq<limb>, w: nat, bits: nat, carry: nat)
    requires |t| == LIMBS && w < 192 && carry <= 1 && Filled(s, w, bits)
    requires
      var m := w / 32;
      && t[..m] == s[..m] && t[m] == s[m] + carry * Pow2(31 - w % 32)
      && forall j :: m < j < LIMBS ==> t[j] == s[j]
    ensures Filled(t, w + 1, 2 * bits + carry)
  {
    hide Val, Pow2;
    var m, n := w / 32, 32 - w % 32;
    ValSnoc(s[..m + 1]);
    ValSnoc(t[..m + 1]);
    assert s[..m + 1][..m] == s[..m] && t[..m + 1][..m] == t[..m];
    DoublePow(n - 1);
    StoreAlgebra(bits, Pow2(n - 1), carry);
    if n == 1 {
      LimbFull(t, m, 2 * bits + carry);
    }
  }

  // After its last bit the next limb is still empty.
  lemma LimbFull(t: seq<limb>, m: nat, bits: nat)
    requires |t| == LIMBS && m < 6 && Val(t[..m + 1]) == bits * Pow2(0) && forall j :: m < j < LIMBS ==> t[j] == 0
    ensures Filled(t, 32 * (m + 1), bits)
  {
    hide Val, Pow2;
    Pow2Zero();
    Pow2Values();
    if m == 5 {
      assert t[..6] == t;
    } else {
      ValSnoc(t[..m + 2]);
      assert t[..m + 2][..m + 1] == t[..m + 1];
    }
  }

  lemma StoreAlgebra(b: int, h: int, c: int)
    ensures b * (2 * h) + c * h == (2 * b + c) * h
  {
  }

  lemma FilledVal(s: seq<limb>, w: nat, bits: nat)
    requires Filled(s, w, bits)
    ensures Val(s) == bits * Pow2(192 - w)
  {
    hide Val, Pow2;
    Pow2Zero();
    if w < 192 {
      var m := w / 32;
      assert s == s[..m + 1] + s[m + 1..];
      ValAppend(s[..m + 1], s[m + 1..]);
      ValZeros(s[m + 1..]);
      Pow2Add(32 - w % 32, 32 * (5 - m));
      MulAssoc(bits, Pow2(32 - w % 32), Weight(5 - m));
    }
  }

  lemma DoubledEnd(num: nat, w: nat, zeros: nat, bits: nat, rest: nat)
    requires w <= 192 && Doubled(num, w, zeros, bits, rest) && (rest == 0 || w == 192)
    ensures bits * Pow2(192 - w) >= 0 && FractionBits(bits * Pow2(192 - w), zeros, num)
  {
    hide Pow2, Pow10;
    var d, p := Pow10(DIGITS), Pow2(192 - w);
    MulMono(0, bits, p);
    Pow2Zero();
    if num == 0 {
      if bits > 0 {
        AtLeastOne(bits, d);
      }
    } else {
      if w == 0 {
        AtLeastOne(num, Pow2(w + zeros));
      } else {
        Pow2Add(w - 1, 192 - w);
        Pow2Add(w, 192 - w);
        MulMono(Pow2(w - 1), bits, p);
        Strict(bits, Pow2(w), p);
        Pow2Add(w + zeros, 192 - w);
        MulAssoc(num, Pow2(w + zeros), p);
        EndAlgebra(bits, d, rest, p);
        NextMultiple(bits * p, d);
      }
    }
  }

  lemma EndAlgebra(b: int, d: int, r: int, p: int)
    ensures (b * d + r) * p == b * p * d + r * p
    ensures p == 1 ==> r * p == r
  {
  }

  lemma DoublingStarts(num: nat, s: seq<limb>)
    requires num < Pow10(DIGITS) && |s| == LIMBS && forall j :: 0 <= j < LIMBS ==> s[j] == 0
    ensures Doubled(num, 0, 0, 0, num) && Filled(s, 0, 0) && Pow2(31) == 0x8000_0000
  {
    hide Pow10;
    Pow2Zero();
    Pow2Values();
    ValZeros(s[..1]);
  }

  lemma NoBitsYet(num: nat, w: nat, zeros: nat, bits: nat, rest: nat)
    requires Doubled(num, w, zeros, bits, rest) && w == 0
    ensures bits == 0
  {
  }

  lemma NextBit(w: nat)
    ensures
      var bit, next := Pow2(31 - w % 32), Pow2(31 - (w + 1) % 32);
      if bit == 1 then next == 0x8000_0000 && (w + 1) / 32 == w / 32 + 1
      else next == bit / 2 && (w + 1) / 32 == w / 32
  {
    hide Pow2;
    Pow2Zero();
    Pow2Values();
    if w % 32 < 31 {
      DoublePow(30 - w % 32);
    }
  }

  // The digits become the leading bits of the fraction; the exponent counts the zero bits in front of them.
  method DigitsToBits(digits: array<digit>, count: nat, mant: array<limb>) returns (twopwr: int)
    requires digits.Length == DIGITS && count <= DIGITS && mant.Length == LIMBS
    modifies digits, mant
    ensures twopwr <= 0 && FractionBits(Val(mant[..]), -twopwr, old(Fraction(digits[..count])))
  {
    hide Val, Pow2, Pow10, Fraction, Filled, Doubled, FractionBits;
    ghost var num := Fraction(digits[..count]);
    ghost var w: nat, zeros: nat, bits: nat := 0, 0, 0;
    var p, m, bit := count, 0, 0x8000_0000;
    var started := false;
    twopwr := 0;
    ClearTail(mant, 0);
    FractionBound(digits[..p]);
    DoublingStarts(num, mant[..]);
    while m < LIMBS
      invariant p <= DIGITS && w <= 192 && m == w / 32 && bit == Pow2(31 - w % 32)
      invariant (started <==> w > 0) && twopwr + zeros == 0
      invariant Filled(mant[..], w, bits) && Doubled(num, w, zeros, bits, Fraction(digits[..p]))
      decreases 192 - w, Pow10(DIGITS) - Fraction(digits[..p])
    {
      p := StripZeros(digits, p);
      ghost var rest := Fraction(digits[..p]);
      if p == 0 {
        break;
      }
      var carry := DoubleDigits(digits, p);
      FractionBound(digits[..p]);
      DoubledStep(num, w, zeros, bits, rest, Fraction(digits[..p]), carry);
      if carry != 0 {
        StoreBit(mant, m, bit, w, bits);
        started := true;
      } else {
        StoreFilled(mant[..], mant[..], w, bits, 0);
      }
      if started {
        NextBit(w);
        if bit == 1 {
          bit := 0x8000_0000;
          m := m + 1;
        } else {
          bit := bit / 2;
        }
        w, bits := w + 1, 2 * bits + carry;
      } else {
        NoBitsYet(num, w, zeros, bits, rest);
        twopwr := twopwr - 1;
        zeros := zeros + 1;
      }
    }
    FilledVal(mant[..], w, bits);
    DoubledEnd(num, w, zeros, bits, Fraction(digits[..p]));
  }
}
