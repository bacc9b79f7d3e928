// ieee_flconvert as a whole: from the text of a decimal constant to its mantissa and exponent. The digits
// give a fraction and a power of ten; the fraction becomes bits by doubling, and the power of ten a power of
// two and a product of fives.
// The errors of both halves add up to (1 + 2 n) units of 2^-191, n being the size of the power of ten.

module FloatConvert {
  import opened Common
  import opened Arithmetic
  import opened FloatLimbs
  import opened FloatReal
  import opened FloatRound
  import opened FloatFormat
  import opened FloatPack
  import opened FloatMultiply
  import opened FloatBinary
  import opened FloatDecimal
  import opened FloatPower

  // The number that a decimal text stands for is sig * 10^pow: all digits in a row, and the place of the last one.
  function ReadDecimal(text: string, dot: bool, sig: nat, pow: int): Scan {
    if text == [] then Number(sig, pow)
    else if text[0] == 'E' || text[0] == 'e' then
      match ExponentOf(text[1..], 5000)
      case BadExponent => Malformed
      case Exponent(e) => Number(sig, pow + e)
    else if text[0] == '.' then
      if dot then Malformed else ReadDecimal(text[1..], true, sig, pow)
    else if '0' <= text[0] <= '9' then
      ReadDecimal(text[1..], dot, sig * 10 + (text[0] - '0') as int, if dot then pow - 1 else pow)
    else if text[0] == '_' then ReadDecimal(text[1..], dot, sig, pow)
    else Malformed
  }

  function DigitCount(n: nat): nat {
    if n == 0 then 0 else DigitCount(n / 10) + 1
  }

  // The first 52 digits.
  function FirstDigits(n: nat): nat {
    if DigitCount(n) <= DIGITS then n
    else
      QuotientNat(n, Pow10(DigitCount(n) - DIGITS));
      n / Pow10(DigitCount(n) - DIGITS)
  }

  lemma FirstDigitsNext(n: nat, d: digit)
    requires n > 0 || d > 0
    ensures DigitCount(n * 10 + d) == DigitCount(n) + 1
    ensures FirstDigits(n * 10 + d) == if DigitCount(n) < DIGITS then n * 10 + d else FirstDigits(n)
  {
    assert (n * 10 + d) / 10 == n;
    var c := DigitCount(n);
    if c == DIGITS {
      assert Pow10(0) == 1 && Pow10(1) == 10;
    } else if c > DIGITS {
      DivideTwice(n * 10 + d, n, Pow10(c - DIGITS));
    }
  }

  lemma DivideTwice(x: nat, n: nat, k: nat)
    requires k > 0 && n == x / 10
    ensures 10 * k > 0 && x / (10 * k) == n / k
  {
    var q, r := n / k, n % k;
    QuotientNat(n, k);
    DivideAlgebra(q, k, r, x % 10);
    DivUnique(x, 10 * k, q, 10 * r + x % 10);
  }

  lemma DivideAlgebra(q: int, k: int, r: int, d: int)
    ensures (q * k + r) * 10 + d == q * (10 * k) + (10 * r + d)
  {
  }

  // The digits go into a buffer of 52; the rest only counts.
  method ReadDigits(text: string, digits: array<digit>) returns (ok: bool, count: nat, tenpwr: int)
    requires digits.Length == DIGITS
    modifies digits
    ensures ok <==> ReadDecimal(text, false, 0, 0).Number?
    ensures count <= DIGITS
    ensures ok ==> -(|text| + 5000) <= tenpwr <= |text| + 5000
    ensures ok ==>
      var n := ReadDecimal(text, false, 0, 0);
      && tenpwr == n.pow + DigitCount(n.sig)
      && count == Least(DigitCount(n.sig), DIGITS) && DecVal(digits[..count]) == FirstDigits(n.sig)
  {
    hide DecVal, Pow10, DigitCount, FirstDigits, ExponentOf, ReadDecimal;
    var i := 0;
    var started, seendot := false, false;
    count, tenpwr := 0, 0;
    ghost var sig: nat, pow: int := 0, 0;
    ghost var whole := ReadDecimal(text, false, 0, 0);
    assert text[0..] == text;
    NothingRead();
    while i < |text| && text[i] != 'E' && text[i] != 'e'
      invariant i <= |text| && whole == ReadDecimal(text[i..], seendot, sig, pow)
      invariant 0 - i <= tenpwr <= i
      invariant (started <==> sig > 0) && tenpwr == pow + DigitCount(sig)
      invariant count == Least(DigitCount(sig), DIGITS) && DecVal(digits[..count]) == FirstDigits(sig)
    {
      var c := text[i];
      DecimalStep(text, i, seendot, sig, pow);
      if c == '.' {
        if !seendot {
          seendot := true;
        } else {
          return false, 0, 0;
        }
      } else if '0' <= c <= '9' {
        var d: digit := (c - '0') as int;
        if c == '0' && !started {
          if seendot {
            tenpwr := tenpwr - 1;
          }
        } else {
          started := true;
          FirstDigitsNext(sig, d);
          if count < DIGITS {
            StoredDigit(digits[..count], d);
            WithinBuffer(sig);
            ghost var s := digits[..count];
            digits[count] := d;
            count := count + 1;
            assert digits[..count] == s + [d];
          }
          if !seendot {
            tenpwr := tenpwr + 1;
          }
        }
        sig, pow := sig * 10 + d, if seendot then pow - 1 else pow;
      } else if c != '_' {
        return false, 0, 0;
      }
      i := i + 1;
    }
    if i < |text| {
      DecimalStep(text, i, seendot, sig, pow);
      var e := ReadExponent(text[i + 1..], 5000);
      if e == BadExponent {
        return false, 0, 0;
      }
      tenpwr := tenpwr + e.value;
    } else {
      DecimalEnd(text[i..], seendot, sig, pow);
    }
    ok := true;
  }

  lemma NothingRead()
    ensures DigitCount(0) == 0 && FirstDigits(0) == 0 && DecVal([]) == 0
  {
  }

  lemma WithinBuffer(n: nat)
    ensures DigitCount(n) < DIGITS ==> FirstDigits(n) == n
  {
  }

  lemma StoredDigit(s: seq<digit>, d: digit)
    ensures DecVal(s + [d]) == DecVal(s) * 10 + d
  {
    assert (s + [d])[..|s|] == s;
  }

  lemma DecimalEnd(text: string, dot: bool, sig: nat, pow: int)
    requires text == []
    ensures ReadDecimal(text, dot, sig, pow) == Number(sig, pow)
  {
  }

  // One character of ReadDecimal.
  lemma DecimalStep(text: string, i: nat, dot: bool, sig: nat, pow: int)
    requires i < |text|
    ensures
      var c, rest := text[i], text[i + 1..];
      ReadDecimal(text[i..], dot, sig, pow) ==
      if c == 'E' || c == 'e' then
        match ExponentOf(rest, 5000)
        case BadExponent => Malformed
        case Exponent(e) => Number(sig, pow + e)
      else if c == '.' then
        if dot then Malformed else ReadDecimal(rest, true, sig, pow)
      else if '0' <= c <= '9' then
        ReadDecimal(rest, dot, sig * 10 + (c - '0') as int, if dot then pow - 1 else pow)
      else if c == '_' then ReadDecimal(rest, dot, sig, pow)
      else Malformed
  {
    assert text[i..][1..] == text[i + 1..];
  }

  // The first 52 digits, with zeros behind if there are fewer.
  function Padded(sig: nat): nat {
    var n := Pow10(if DigitCount(sig) < DIGITS then DIGITS - DigitCount(sig) else 0);
    MulMono(0, FirstDigits(sig), n);
    FirstDigits(sig) * n
  }

  // The number that they stand for.
  function KeptReal(sig: nat, pow: int): real {
    Ratio(Padded(sig)) * RPow(10.0, pow + DigitCount(sig))
  }

  // Up to 52 digits this is the number written.
  lemma KeptIsExact(sig: nat, pow: int)
    requires DigitCount(sig) <= DIGITS
    ensures KeptReal(sig, pow) == sig as real * RPow(10.0, pow)
  {
    hide Pow10, RPow, DigitCount, Padded, Ratio;
    var c := DigitCount(sig);
    TenPower(DIGITS - c);
    TenPower(DIGITS);
    RPowAdd(10.0, DIGITS - c, pow + c);
    RPowAdd(10.0, DIGITS, pow);
    assert DIGITS - c + (pow + c) == DIGITS + pow;
    PaddedRatio(sig);
    KeptAlgebra10(sig as real, Pow10(DIGITS - c) as real, Pow10(DIGITS) as real, RPow(10.0, pow + c), RPow(10.0, pow),
      Ratio(Padded(sig)));
  }

  // With more digits it is below the number written by less than 10^-51 of it.
  lemma KeptIsClose(sig: nat, pow: int)
    requires DigitCount(sig) > DIGITS
    ensures
      var x, k := sig as real * RPow(10.0, pow), KeptReal(sig, pow);
      k <= x && (x - k) * Pow10(DIGITS - 1) as real < k
  {
    hide Pow10, RPow, DigitCount, FirstDigits, Padded;
    var c := DigitCount(sig) - DIGITS;
    var f := FirstDigits(sig);
    KeptDigits(sig, c);
    BoundsReal(f, sig, Pow10(c));
    TenPower(c);
    TenPower(DIGITS);
    RPowAdd(10.0, c, pow);
    RPowAdd(10.0, DIGITS, c + pow);
    assert DIGITS + (c + pow) == pow + DigitCount(sig);
    KeptAlgebra(f as real, sig as real, Pow10(c) as real, Pow10(DIGITS) as real, RPow(10.0, pow), RPow(10.0, c + pow),
                RPow(10.0, pow + DigitCount(sig)), Pow10(DIGITS - 1) as real);
  }

  lemma KeptDigits(sig: nat, c: nat)
    requires DigitCount(sig) == DIGITS + c && c > 0
    ensures Padded(sig) == FirstDigits(sig) >= Pow10(DIGITS - 1)
    ensures FirstDigits(sig) * Pow10(c) <= sig < (FirstDigits(sig) + 1) * Pow10(c)
  {
    hide Pow10, DigitCount;
    TenZero();
    var f := FirstDigits(sig);
    QuotientBounds(sig, Pow10(c), f);
    DigitCountBound(sig);
    SomeDigits(sig);
    Pow10Add(DIGITS - 1, c);
    assert DIGITS - 1 + c == DigitCount(sig) - 1 && sig >= Pow10(DigitCount(sig) - 1);
    FullDigits(f, Pow10(DIGITS - 1), Pow10(c), sig);
  }

  lemma BoundsReal(f: nat, s: nat, p: nat)
    requires f * p <= s < (f + 1) * p
    ensures f as real * p as real <= s as real < (f as real + 1.0) * p as real
  {
    RealProduct(f, p);
    RealProduct(f + 1, p);
  }

  lemma SomeDigits(n: nat)
    requires DigitCount(n) > 0
    ensures n > 0
  {
  }

  // A number of so many digits has a first part of as many as are kept.
  lemma FullDigits(f: nat, least: nat, p: nat, sig: nat)
    requires p > 0 && least * p <= sig < (f + 1) * p
    ensures f >= least
  {
    if f < least {
      MulMono(f + 1, least, p);
    }
  }

  lemma KeptAlgebra(f: real, s: real, p: real, d: real, y: real, z: real, w: real, least: real)
    requires d > 0.0 && p > 0.0 && y > 0.0 && z == p * y && w == d * z && f * p <= s < (f + 1.0) * p && f >= least > 0.0
    ensures f / d * w <= s * y && (s * y - f / d * w) * least < f / d * w
  {
    var q := f / d;
    assert q * d == f;
    assert q * w == f * z by {
      RAssoc(q, d, z);
    }
    assert f * z == f * p * y by {
      RAssoc(f, p, y);
    }
    MulLe(f * p, s, y);
    assert (f + 1.0) * p == f * p + p;
    assert (s - f * p) * y < p * y by {
      assert (p - (s - f * p)) * y > 0.0;
    }
    assert (s - f * p) * y == s * y - f * p * y;
    LeastAlgebra(s * y - f * z, z, least, f);
  }

  lemma LeastAlgebra(e: real, z: real, least: real, f: real)
    requires 0.0 <= e < z && f >= least > 0.0
    ensures e * least < f * z
  {
    assert (z - e) * least > 0.0;
    MulLe(least, f, z);
  }

  lemma PaddedRatio(sig: nat)
    requires DigitCount(sig) <= DIGITS
    ensures Ratio(Padded(sig)) * Pow10(DIGITS) as real == sig as real * Pow10(DIGITS - DigitCount(sig)) as real
  {
    hide Pow10, DigitCount;
    if DigitCount(sig) == DIGITS {
      TenZero();
    }
    RealProduct(sig, Pow10(DIGITS - DigitCount(sig)));
  }

  lemma TenZero()
    ensures Pow10(0) == 1
  {
  }

  lemma KeptAlgebra10(s: real, a: real, d: real, x: real, y: real, q: real)
    requires d > 0.0 && a * x == d * y && q * d == s * a
    ensures q * x == s * y
  {
    assert q * x * d == q * d * x;
    assert s * a * x == s * (a * x);
    assert s * (d * y) == s * y * d;
    CancelReal(q * x, s * y, d);
  }

  lemma CancelReal(a: real, b: real, d: real)
    requires d > 0.0 && a * d == b * d
    ensures a == b
  {
  }

  lemma {:induction false} TenPower(n: nat)
    ensures RPow(10.0, n) == Pow10(n) as real
  {
    if n > 0 {
      TenPower(n - 1);
    }
  }

  // Ten is two times five.
  lemma {:induction false} TwosAndFives(n: int)
    ensures RPow(2.0, n) * RPow(5.0, n) == RPow(10.0, n)
    decreases if n < 0 then -n else n
  {
    hide RPow;
    if n > 0 {
      TwosAndFives(n - 1);
      RPowNext(2.0, n - 1);
      RPowNext(5.0, n - 1);
      RPowNext(10.0, n - 1);
      TenAlgebraUp(RPow(2.0, n - 1), RPow(5.0, n - 1), RPow(10.0, n - 1));
    } else if n < 0 {
      TwosAndFives(n + 1);
      RPowNext(2.0, n);
      RPowNext(5.0, n);
      RPowNext(10.0, n);
      TenAlgebraDown(RPow(2.0, n), RPow(5.0, n), RPow(10.0, n));
    } else {
      RPowZero(2.0);
      RPowZero(5.0);
      RPowZero(10.0);
    }
  }

  lemma TenAlgebraUp(a: real, b: real, c: real)
    requires a * b == c
    ensures (2.0 * a) * (5.0 * b) == 10.0 * c
  {
  }

  lemma TenAlgebraDown(a: real, b: real, c: real)
    requires (2.0 * a) * (5.0 * b) == 10.0 * c
    ensures a * b == c
  {
  }

  function Ratio(num: nat): real {
    num as real / Pow10(DIGITS) as real
  }

  // Cutting the fraction after 192 bits costs at most one unit.
  lemma FractionClose(v: nat, twopwr: int, num: nat)
    requires twopwr <= 0 && FractionBits(v, -twopwr, num)
    ensures CloseBy(Real(v, twopwr), Ratio(num), 1) && Ratio(num) >= 0.0
  {
    hide Pow2, Pow10, RPow, Ulp;
    var n := 192 - twopwr;
    RPowIsPow2(n);
    RPowAdd(2.0, n, twopwr - 192);
    RPowZero(2.0);
    UlpRange();
    UlpInverse();
    OneUnit();
    if num > 0 {
      RealProduct(v, Pow10(DIGITS));
      RealProduct(v + 1, Pow10(DIGITS));
      RealProduct(num, Pow2(n));
      FractionReal(v as real, num as real, Pow10(DIGITS) as real, Pow2(n) as real, RPow(2.0, twopwr - 192), Ulp(),
        Pow2(191) as real);
    }
  }

  lemma OneUnit()
    ensures Units(1) == Ulp()
  {
  }

  lemma FractionReal(v: real, num: real, d: real, p: real, w: real, u: real, h: real)
    requires d > 0.0 && p > 0.0 && w > 0.0 && p * w == 1.0 && num >= 0.0 && h * u == 1.0 && u > 0.0 && v >= h > 0.0
    requires v * d <= num * p < (v + 1.0) * d
    ensures num / d * (1.0 - u) <= v * w <= num / d * (1.0 + u)
  {
    var t := num / d;
    assert num == t * d;
    assert num * p == t * p * d;
    CancelLe(v, t * p, d);
    CancelLe(t * p, v + 1.0, d);
    UnitBelow(v, t, t * p, p, w, u, h);
  }

  // x is t p, and v the integer below it.
  lemma UnitBelow(v: real, t: real, x: real, p: real, w: real, u: real, h: real)
    requires w > 0.0 && p * w == 1.0 && h * u == 1.0 && u > 0.0 && t >= 0.0
    requires x == t * p && h <= v <= x <= v + 1.0
    ensures t * (1.0 - u) <= v * w <= t * (1.0 + u)
  {
    RAssoc(t, p, w);
    MulLe(v, x, w);
    MulLe(x, v + 1.0, w);
    MulLe(h, v, w);
    CutReal(t, v * w, h, w, u);
    MulLe(1.0, 1.0 + u, t);
  }

  lemma CancelLe(a: real, b: real, d: real)
    requires d > 0.0
    ensures a * d <= b * d ==> a <= b
  {
    if a > b {
      assert (a - b) * d > 0.0;
    }
  }

  // The power of two that comes with the power of five moves the exponent only.
  lemma TwosMoved(v: nat, t: int, x: real, n: int, y: real)
    requires CloseBy(Real(v, t), x, 1) && y == x * RPow(2.0, n)
    ensures CloseBy(Real(v, t + n), y, 1)
  {
    hide RPow, Units, Real, Close;
    RealShift(v, t, n);
    CloseScaled(Real(v, t), x, Units(1), RPow(2.0, n), Real(v, t + n), y);
  }

  lemma RealShift(v: nat, t: int, n: int)
    ensures Real(v, t + n) == Real(v, t) * RPow(2.0, n)
  {
    hide RPow;
    RPowAdd(2.0, t - 192, n);
    assert t + n - 192 == t - 192 + n;
    RAssoc(v as real, RPow(2.0, t - 192), RPow(2.0, n));
  }

  lemma CloseScaled(a: real, x: real, u: real, w: real, b: real, y: real)
    requires Close(a, x, u) && w > 0.0 && b == a * w && y == x * w
    ensures Close(b, y, u)
  {
    MulLe(x * (1.0 - u), a, w);
    MulLe(a, x * (1.0 + u), w);
    SwapReal(x, 1.0 - u, w);
    SwapReal(x, 1.0 + u, w);
  }

  // The factors of five that the conversion takes in.
  function Fivefold(sig: nat, pow: int): nat {
    var t := pow + DigitCount(sig);
    if t < 0 then -t else t
  }

  // The mantissa and the exponent are off by at most (1 + 2 n) * 2^-191 of the number that the first 52 digits stand
  // for, n being the number of factors of five. Texts are bounded so that the 32-bit exponents do not overflow.
  method Flconvert(text: string, mant: array<limb>) returns (ok: bool, exponent: int)
    requires mant.Length == LIMBS && |text| <= 1_000_000
    modifies mant
    ensures ok <==> ReadDecimal(text, false, 0, 0).Number?
    ensures ok ==>
      var n := ReadDecimal(text, false, 0, 0);
      && CloseBy(Real(Val(mant[..]), exponent), KeptReal(n.sig, n.pow), 1 + 2 * Fivefold(n.sig, n.pow))
      && Fivefold(n.sig, n.pow) <= 0x10_0000
      && if n.sig == 0 then Val(mant[..]) == 0 else Normal(mant[..])
  {
    hide Val, Pow10, Real, CloseBy, KeptReal, Normal, DigitCount, FirstDigits, FractionBits, RPow, TimesFives, Fraction,
      Ratio, DecVal, Padded;
    var digits := new digit[DIGITS](_ => 0);
    var count, tenpwr;
    exponent := 0;
    ok, count, tenpwr := ReadDigits(text, digits);
    if !ok {
      return;
    }
    ghost var n := ReadDecimal(text, false, 0, 0);
    ghost var x := Ratio(Padded(n.sig)) * RPow(2.0, tenpwr);
    PaddedFraction(digits[..count], n.sig);
    var twopwr := DigitsToBits(digits, count, mant);
    BitsOrZero(mant[..], -twopwr, Padded(n.sig));
    FractionClose(Val(mant[..]), twopwr, Padded(n.sig));
    TwosMoved(Val(mant[..]), twopwr, Ratio(Padded(n.sig)), tenpwr, x);
    MulNonneg(Ratio(Padded(n.sig)), RPow(2.0, tenpwr));
    exponent := ScaleByFives(mant, tenpwr, twopwr + tenpwr, x);
    KeptProduct(n.sig, n.pow, x);
  }

  lemma KeptProduct(sig: nat, pow: int, x: real)
    requires x == Ratio(Padded(sig)) * RPow(2.0, pow + DigitCount(sig))
    ensures TimesFives(x, pow + DigitCount(sig)) == KeptReal(sig, pow)
  {
    hide RPow, Ratio;
    var t := pow + DigitCount(sig);
    TwosAndFives(t);
    RAssoc(Ratio(Padded(sig)), RPow(2.0, t), RPow(5.0, t));
  }

  lemma PaddedFraction(s: seq<digit>, sig: nat)
    requires |s| == Least(DigitCount(sig), DIGITS) && DecVal(s) == FirstDigits(sig)
    ensures Fraction(s) == Padded(sig)
    ensures sig > 0 <==> Padded(sig) > 0
  {
    hide Pow10, DecVal, FirstDigits;
    FirstDigitsZero(sig);
    if FirstDigits(sig) > 0 {
      AtLeastOne(FirstDigits(sig), Pow10(DIGITS - |s|));
    }
  }

  lemma {:induction false} DigitCountBound(n: nat)
    ensures n > 0 ==> DigitCount(n) > 0 && n >= Pow10(DigitCount(n) - 1)
  {
    if n >= 10 {
      DigitCountBound(n / 10);
    }
  }

  lemma FirstDigitsZero(n: nat)
    ensures n > 0 <==> FirstDigits(n) > 0
  {
    hide Pow10;
    DigitCountBound(n);
    var c := DigitCount(n);
    if c > DIGITS {
      Pow10Add(DIGITS - 1, c - DIGITS);
      AtLeastOne(Pow10(DIGITS - 1), Pow10(c - DIGITS));
      PositiveQuotient(n, Pow10(c - DIGITS));
    }
  }

  lemma PositiveQuotient(n: nat, d: nat)
    requires d > 0
    ensures d <= n ==> n / d > 0
  {
    if n / d == 0 {
      assert n == d * (n / d) + n % d;
    }
  }

  lemma BitsOrZero(s: seq<limb>, zeros: nat, num: nat)
    requires |s| == LIMBS && FractionBits(Val(s), zeros, num)
    ensures if num == 0 then Val(s) == 0 else Normal(s)
  {
    hide Val, Pow2;
    NormalVal(s);
  }
}
