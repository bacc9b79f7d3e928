// The second half of ieee_flconvert: multiplying by a power of five with truncated products. Square and
// multiply takes one factor for every bit that is set in the power of ten; every product adds the errors of
// its factors and one unit of 2^-191 for the bits cut off, and n factors of five cost at most 2 n units.

module FloatPower {
  import opened Arithmetic
  import opened FloatLimbs
  import opened FloatReal
  import opened FloatMultiply

  // A mantissa v with a binary exponent: 0.v * 2^t.
  function Real(v: nat, t: int): real {
    v as real * RPow(2.0, t - 192)
  }

  // One unit of relative error, 2^-191.
  function Ulp(): (u: real)
    ensures 0.0 < u <= 1.0
  {
    1.0 / Pow2(191) as real
  }

  function Units(n: nat): real {
    n as real * Ulp()
  }

  predicate CloseBy(a: real, t: real, units: nat) {
    Close(a, t, Units(units))
  }

  // A truncated product is at most one unit below the exact one.
  lemma TruncatedProduct(a: nat, b: nat, r: nat, ret: int, s: int, t: int)
    requires ret == 0 || ret == -1
    requires r == a * b * (if ret == 0 then 1 else 2) / Pow2(192) && (a * b == 0 || r >= Pow2(191))
    ensures Real(a, s) * Real(b, t) * (1.0 - Ulp()) <= Real(r, s + t + ret) <= Real(a, s) * Real(b, t)
  {
    hide Pow2, RPow, Real, Ulp;
    var k, n := 192 + ret, s + t - 384;
    TruncatedBounds(a, b, r, ret);
    ExactProduct(a, b, s, t);
    ShiftedReal(r, k, n);
    assert s + t + ret == k + n + 192;
    CutProduct(a * b, r, k, RPow(2.0, n), Real(a, s) * Real(b, t), Real(r, s + t + ret));
  }

  lemma CutProduct(p: nat, r: nat, k: nat, w: real, x: real, y: real)
    requires r * Pow2(k) <= p < (r + 1) * Pow2(k) && (p == 0 || r >= Pow2(191)) && w > 0.0
    requires x == p as real * w && y == r as real * Pow2(k) as real * w
    ensures x * (1.0 - Ulp()) <= y <= x
  {
    hide Pow2, Ulp;
    CutByUlp(p, r, Pow2(k));
    ScaleBounds(p as real, r as real * Pow2(k) as real, w, Ulp(), x, y);
  }

  lemma TruncatedBounds(a: nat, b: nat, r: nat, ret: int)
    requires ret == 0 || ret == -1
    requires r == a * b * (if ret == 0 then 1 else 2) / Pow2(192)
    ensures r * Pow2(192 + ret) <= a * b < (r + 1) * Pow2(192 + ret)
  {
    hide Pow2;
    var p := a * b;
    DoublePow(191);
    QuotientBounds(p * (if ret == 0 then 1 else 2), Pow2(192), r);
    if ret == -1 {
      HalfBounds(r, Pow2(191), p);
    }
  }

  lemma ExactProduct(a: nat, b: nat, s: int, t: int)
    ensures Real(a, s) * Real(b, t) == (a * b) as real * RPow(2.0, s + t - 384)
  {
    hide RPow;
    RPowAdd(2.0, s - 192, t - 192);
    ScaleReal(a as real, RPow(2.0, s - 192), b as real, RPow(2.0, t - 192), RPow(2.0, s + t - 384));
  }

  lemma ShiftedReal(r: nat, k: nat, n: int)
    ensures Real(r, k + n + 192) == r as real * Pow2(k) as real * RPow(2.0, n)
  {
    hide RPow, Pow2;
    RPowIsPow2(k);
    RPowAdd(2.0, k, n);
    RAssoc(r as real, Pow2(k) as real, RPow(2.0, n));
  }

  lemma QuotientBounds(x: nat, d: nat, q: nat)
    requires d > 0 && q == x / d
    ensures q * d <= x < (q + 1) * d
  {
    NextMultiple(q, d);
  }

  lemma HalfBounds(r: nat, h: nat, p: nat)
    requires r * (2 * h) <= p * 2 < (r + 1) * (2 * h)
    ensures r * h <= p < (r + 1) * h
  {
    assert r * (2 * h) == 2 * (r * h) && (r + 1) * (2 * h) == 2 * ((r + 1) * h);
  }

  lemma ScaleReal(a: real, x: real, b: real, y: real, w: real)
    requires x * y == w
    ensures (a * x) * (b * y) == (a * b) * w
  {
    Regroup(a, x, b, y);
  }

  lemma ScaleBounds(p: real, q: real, w: real, u: real, x: real, y: real)
    requires p * (1.0 - u) <= q <= p && w >= 0.0 && x == p * w && y == q * w
    ensures x * (1.0 - u) <= y <= x
  {
    MulLe(p * (1.0 - u), q, w);
    MulLe(q, p, w);
    SwapReal(p, 1.0 - u, w);
  }

  lemma SwapReal(p: real, v: real, w: real)
    ensures p * v * w == p * w * v
  {
  }

  lemma CutByUlp(p: nat, r: nat, h: nat)
    requires h > 0 && r * h <= p && (p == 0 || (p < (r + 1) * h && r >= Pow2(191)))
    ensures p as real * (1.0 - Ulp()) <= r as real * h as real <= p as real
  {
    hide Pow2, Ulp;
    if p > 0 {
      NextMultiple(r, h);
      MulMono(Pow2(191), r, h);
      RealProduct(r, h);
      CutInt(p, r * h, h);
    } else {
      RealProduct(r, h);
      RealProduct(0, h);
      if r > 0 {
        AtLeastOne(r, h);
      }
    }
  }

  lemma CutInt(p: nat, q: nat, h: nat)
    requires q <= p < q + h && Pow2(191) * h <= p
    ensures p as real * (1.0 - Ulp()) <= q as real <= p as real
  {
    hide Pow2, Ulp;
    UlpInverse();
    RealProduct(Pow2(191), h);
    CutReal(p as real, q as real, Pow2(191) as real, h as real, Ulp());
  }

  lemma RealProduct(a: nat, b: nat)
    ensures a * b >= 0 && (a * b) as real == a as real * b as real
  {
    MulMono(0, a, b);
  }

  lemma UlpInverse()
    ensures Pow2(191) as real * Ulp() == 1.0
  {
  }

  // q <= p < q + h and n h <= p make p u at least h, where u is 1 / n.
  lemma CutReal(p: real, q: real, n: real, h: real, u: real)
    requires q <= p <= q + h && n * h <= p && n * u == 1.0 && u >= 0.0
    ensures p * (1.0 - u) <= q
  {
    MulLe(n * h, p, u);
    RSwap(n, h, u);
  }

  lemma RSwap(n: real, h: real, u: real)
    requires n * u == 1.0
    ensures n * h * u == h
  {
    assert n * h * u == n * u * h;
  }

  // Five or a fifth, to the power of n.
  function Fives(neg: bool, n: nat): (r: real)
    ensures r > 0.0
  {
    RPow(5.0, Signed(neg, n))
  }

  function Signed(neg: bool, n: int): int {
    if neg then -n else n
  }

  function TimesFives(x: real, n: int): real {
    x * RPow(5.0, n)
  }

  function FivesTimes(x: real, neg: bool, n: nat): real {
    TimesFives(x, Signed(neg, n))
  }

  lemma FivesAdd(neg: bool, m: nat, n: nat)
    ensures Fives(neg, m + n) == Fives(neg, m) * Fives(neg, n)
  {
    hide RPow;
    RPowAdd(5.0, Signed(neg, m), Signed(neg, n));
  }

  lemma CloseByProduct(a1: real, t1: real, n1: nat, a2: real, t2: real, n2: nat, a: real)
    requires 0.0 <= t1 && 0.0 <= t2 && n1 <= 0x40_0000 && n2 <= 0x40_0000
    requires CloseBy(a1, t1, n1) && CloseBy(a2, t2, n2) && a1 * a2 * (1.0 - Ulp()) <= a <= a1 * a2
    ensures CloseBy(a, t1 * t2, n1 + n2 + 1)
  {
    hide Ulp, Close, Units;
    UlpRange();
    SmallUnits(n1, n2);
    CloseProduct(a1, t1, Units(n1), a2, t2, Units(n2), a, Ulp());
    UnitSum(n1, n2);
  }

  lemma UlpRange()
    ensures 0.0 < Ulp() <= 1.0
  {
  }

  lemma UnitSum(n1: nat, n2: nat)
    ensures Units(n1) + Units(n2) + Ulp() == Units(n1 + n2 + 1)
  {
    hide Ulp;
    assert (n1 + n2 + 1) as real == n1 as real + n2 as real + 1.0;
  }

  // Up to 2^22 units and their product are nothing beside one.
  lemma SmallUnits(n1: nat, n2: nat)
    requires n1 <= 0x40_0000 && n2 <= 0x40_0000
    ensures 0.0 <= Units(n1) <= 1.0 && 0.0 <= Units(n2) <= 1.0 && Units(n1) * Units(n2) <= Ulp()
  {
    hide Ulp, Units;
    UnitsMonotone(n1, 0x40_0000);
    UnitsMonotone(n2, 0x40_0000);
    UnitsSquare();
    MulLe(Units(n1), Units(0x40_0000), Units(n2));
    MulLe(Units(n2), Units(0x40_0000), Units(0x40_0000));
  }

  lemma UnitsMonotone(n: nat, m: nat)
    requires n <= m
    ensures 0.0 <= Units(n) <= Units(m)
  {
    hide Ulp;
    UlpRange();
    MulLe(0.0, n as real, Ulp());
    MulLe(n as real, m as real, Ulp());
  }

  lemma UnitsSquare()
    ensures Units(0x40_0000) <= 1.0 && Units(0x40_0000) * Units(0x40_0000) <= Ulp()
  {
    hide Ulp, Pow2;
    UlpRange();
    UlpInverse();
    Pow2Monotone(46, 191);
    Pow2Add(30, 16);
    Pow2Values();
    MulLe(17592186044416.0, Pow2(191) as real, Ulp());
    var u := Ulp();
    var v := 17592186044416.0 * u;
    MulLe(v, 1.0, u);
    assert v * u == (4194304.0 * u) * (4194304.0 * u);
  }

  // One float_multiply on two approximations.
  method MultiplyClose(to: array<limb>, from: array<limb>, s: int, t: int,
                       ghost x: real, ghost m: nat, ghost y: real, ghost n: nat, ghost z: real) returns (ret: int)
    requires to.Length == LIMBS && from.Length == LIMBS && Normal(from[..])
    requires Normal(to[..]) || Val(to[..]) == 0
    requires 0.0 <= x && 0.0 <= y && z == x * y && m <= 0x40_0000 && n <= 0x40_0000
    requires CloseBy(Real(Val(to[..]), s), x, m) && CloseBy(Real(Val(from[..]), t), y, n)
    modifies to
    ensures CloseBy(Real(Val(to[..]), s + t + ret), z, m + n + 1)
    ensures old(Normal(to[..])) ==> Normal(to[..])
    ensures old(Val(to[..]) == 0) ==> Val(to[..]) == 0
  {
    hide Val, Pow2, Real, CloseBy, Normal, Ulp;
    ghost var a, b := Val(to[..]), Val(from[..]);
    ghost var normal := Normal(to[..]);
    ret := Multiply(to, from);
    ghost var r := Val(to[..]);
    NormalVal(to[..]);
    Pow2Monotone(0, 383);
    ZeroTimes(a, b, r);
    TruncatedProduct(a, b, r, ret, s, t);
    CloseByProduct(Real(a, s), x, m, Real(b, t), y, n, Real(r, s + t + ret));
  }

  lemma ZeroTimes(a: nat, b: nat, r: nat)
    ensures a == 0 ==> a * b == 0 && 0 / Pow2(192) == 0
  {
  }

  // The mantissas of 5 and of 1/5, the latter rounded up in its last bit.
  method FifthOrFive(neg: bool, mult: array<limb>) returns (extratwos: int)
    requires mult.Length == LIMBS
    modifies mult
    ensures Normal(mult[..]) && CloseBy(Real(Val(mult[..]), extratwos), Fives(neg, 1), 1)
  {
    hide Val, Pow2, Real, CloseBy, Fives;
    if neg {
      for m := 0 to LIMBS - 1
        invariant forall k :: 0 <= k < m ==> mult[k] == 0xcccc_cccc
      {
        mult[m] := 0xcccc_cccc;
      }
      mult[LIMBS - 1] := 0xcccc_cccc + 1;
      extratwos := -2;
      FifthValue(mult[..]);
    } else {
      mult[0] := 0xa000_0000;
      for m := 1 to LIMBS
        invariant mult[0] == 0xa000_0000 && forall k :: 1 <= k < m ==> mult[k] == 0
      {
        mult[m] := 0;
      }
      extratwos := 3;
      FiveValue(mult[..]);
    }
  }

  lemma FiveValue(s: seq<limb>)
    requires |s| == LIMBS && s[0] == 0xa000_0000 && forall k :: 1 <= k < 6 ==> s[k] == 0
    ensures CloseBy(Real(Val(s), 3), Fives(false, 1), 1)
  {
    hide Val, Pow2, Ulp, RPow;
    ValFirst(s);
    ValZeros(s[1..]);
    Pow2Add(29, 160);
    Pow2Add(29, 3);
    Pow2Values();
    EightUp();
    assert Val(s) == 5 * Pow2(189);
    RPowIsPow2(189);
    RPowAdd(2.0, 189, -189);
    RPowZero(2.0);
    RPowNext(5.0, 0);
    RPowZero(5.0);
    FiveProduct(5.0, Pow2(189) as real, RPow(2.0, -189));
    UlpRange();
    assert Units(1) == Ulp();
  }

  lemma EightUp()
    ensures Pow2(3) == 8
  {
    assert Pow2(0) == 1 && Pow2(1) == 2 && Pow2(2) == 4;
  }

  lemma FiveProduct(a: real, p: real, q: real)
    requires p * q == 1.0
    ensures a * p * q == a
  {
    RAssoc(a, p, q);
  }

  lemma FifthValue(s: seq<limb>)
    requires |s| == LIMBS && (forall k :: 0 <= k < 5 ==> s[k] == 0xcccc_cccc) && s[5] == 0xcccc_cccd
    ensures CloseBy(Real(Val(s), -2), Fives(true, 1), 1)
  {
    hide Val, Pow2, Ulp, RPow;
    FifthDigits(s, 5);
    ValSnoc(s);
    assert s[..5] == s[..|s| - 1];
    Pow2Add(160, 32);
    Pow2Values();
    assert 5 * Val(s) == 4 * Pow2(192) + 1;
    RPowIsPow2(192);
    RPowAdd(2.0, 192, -194);
    RPowAdd(2.0, -2, 2);
    RPowNext(2.0, 0);
    RPowNext(2.0, 1);
    RPowZero(2.0);
    RPowNext(5.0, -1);
    RPowZero(5.0);
    UlpPower();
    assert 5.0 * Val(s) as real == 4.0 * Pow2(192) as real + 1.0;
    FifthProduct(Val(s) as real, Pow2(192) as real, RPow(2.0, -194), Ulp());
  }

  // Each limb of 0.8 repeats.
  lemma {:induction false} FifthDigits(s: seq<limb>, n: nat)
    requires |s| == LIMBS && n <= 5 && forall k :: 0 <= k < 5 ==> s[k] == 0xcccc_cccc
    ensures 5 * Val(s[..n]) == 4 * (Pow2(32 * n) - 1)
  {
    hide Pow2;
    if n > 0 {
      FifthDigits(s, n - 1);
      assert s[..n][..n - 1] == s[..n - 1];
      Pow2Add(32 * (n - 1), 32);
      Pow2Values();
    } else {
      Pow2Zero();
    }
  }

  lemma UlpPower()
    ensures 8.0 * RPow(2.0, -194) == Ulp()
  {
    hide Pow2, RPow;
    RPowIsPow2(191);
    RPowAdd(2.0, -194, 3);
    RPowAdd(2.0, 191, -191);
    RPowZero(2.0);
    RPowNext(2.0, 0);
    RPowNext(2.0, 1);
    RPowNext(2.0, 2);
    InverseUnique(Pow2(191) as real, RPow(2.0, -191));
  }

  lemma InverseUnique(p: real, q: real)
    requires p > 0.0 && p * q == 1.0
    ensures q == 1.0 / p
  {
  }

  lemma FifthProduct(v: real, p: real, w: real, u: real)
    requires 5.0 * v == 4.0 * p + 1.0 && p * w * 4.0 == 1.0 && w > 0.0 && 8.0 * w == u
    ensures 0.2 * (1.0 - u) <= v * w <= 0.2 * (1.0 + u)
  {
    assert 5.0 * (v * w) == 4.0 * (p * w) + w;
  }

  method TakeFactor(mant: array<limb>, mult: array<limb>, exponent: int, extratwos: int,
                    ghost neg: bool, ghost x: real, ghost done: nat, ghost power: nat) returns (ret: int)
    requires mant.Length == LIMBS && mult.Length == LIMBS && mant != mult && Normal(mult[..])
    requires (Normal(mant[..]) || Val(mant[..]) == 0) && x >= 0.0 && done < power <= 0x20_0000
    requires CloseBy(Real(Val(mult[..]), extratwos), Fives(neg, power), 2 * power - 1)
    requires CloseBy(Real(Val(mant[..]), exponent), FivesTimes(x, neg, done), 1 + 2 * done)
    modifies mant
    ensures
      CloseBy(Real(Val(mant[..]), exponent + extratwos + ret), FivesTimes(x, neg, done + power), 1 + 2 * (done + power))
    ensures old(Normal(mant[..])) ==> Normal(mant[..])
    ensures old(Val(mant[..]) == 0) ==> Val(mant[..]) == 0
  {
    hide Val, Pow2, Real, CloseBy, Normal, RPow, Fives, FivesTimes, TimesFives;
    FivesMore(neg, x, done, power);
    ret := MultiplyClose(mant, mult, exponent, extratwos, FivesTimes(x, neg, done), 1 + 2 * done,
                         Fives(neg, power), 2 * power - 1, FivesTimes(x, neg, done + power));
    assert 1 + 2 * done + (2 * power - 1) + 1 == 1 + 2 * (done + power);
  }

  method Square(mult: array<limb>, extratwos: int, ghost neg: bool, ghost power: nat) returns (ret: int)
    requires mult.Length == LIMBS && Normal(mult[..]) && 0 < power <= 0x20_0000
    requires CloseBy(Real(Val(mult[..]), extratwos), Fives(neg, power), 2 * power - 1)
    modifies mult
    ensures Normal(mult[..])
    ensures CloseBy(Real(Val(mult[..]), extratwos * 2 + ret), Fives(neg, 2 * power), 2 * (2 * power) - 1)
  {
    hide Val, Pow2, Real, CloseBy, Normal, RPow, Fives, FivesTimes, TimesFives;
    FivesAdd(neg, power, power);
    ret := MultiplyClose(mult, mult, extratwos, extratwos,
                         Fives(neg, power), 2 * power - 1, Fives(neg, power), 2 * power - 1, Fives(neg, 2 * power));
    assert extratwos + extratwos + ret == extratwos * 2 + ret && power + power == 2 * power;
    assert (2 * power - 1) + (2 * power - 1) + 1 == 2 * (2 * power) - 1;
  }

  // Multiplies by 5^tenpwr through its binary digits. Each step of the power adds as many units of error as it has
  // factors of five, so that n factors cost 2 n units.
  method ScaleByFives(mant: array<limb>, tenpwr: int, twopwr: int, ghost x: real) returns (exponent: int)
    requires mant.Length == LIMBS && -0x10_0000 <= tenpwr <= 0x10_0000 && x >= 0.0
    requires (Normal(mant[..]) || Val(mant[..]) == 0) && CloseBy(Real(Val(mant[..]), twopwr), x, 1)
    modifies mant
    ensures
      var n := if tenpwr < 0 then -tenpwr else tenpwr;
      CloseBy(Real(Val(mant[..]), exponent), TimesFives(x, tenpwr), 1 + 2 * n)
    ensures old(Normal(mant[..])) ==> Normal(mant[..])
    ensures old(Val(mant[..]) == 0) ==> Val(mant[..]) == 0
  {
    hide Val, Pow2, Real, CloseBy, Normal, RPow, Fives, FivesTimes, TimesFives;
    var mult := new limb[LIMBS](_ => 0);
    var extratwos, ten, neg := 0, tenpwr, tenpwr < 0;
    exponent := twopwr;
    if tenpwr != 0 {
      extratwos := FifthOrFive(neg, mult);
      if neg {
        ten := -tenpwr;
      }
    }
    ghost var n, power, done := ten, 1, 0;
    FivesNone(neg, x);
    while ten != 0
      invariant 0 <= ten && 0 <= done < power && done + ten * power == n <= 0x10_0000
      invariant mult.Length == LIMBS && fresh(mult)
      invariant n > 0 ==> power <= 2 * n && Normal(mult[..])
      invariant n > 0 ==> CloseBy(Real(Val(mult[..]), extratwos), Fives(neg, power), 2 * power - 1)
      invariant CloseBy(Real(Val(mant[..]), exponent), FivesTimes(x, neg, done), 1 + 2 * done)
      invariant Normal(mant[..]) || Val(mant[..]) == 0
      invariant (old(Normal(mant[..])) ==> Normal(mant[..])) && (old(Val(mant[..]) == 0) ==> Val(mant[..]) == 0)
    {
      PowerLeft(ten, power, done, n);
      if ten % 2 == 1 {
        var ret := TakeFactor(mant, mult, exponent, extratwos, neg, x, done, power);
        exponent := exponent + (extratwos + ret);
        done := done + power;
      }
      ghost var s := mant[..];
      var ret := Square(mult, extratwos, neg, power);
      assert mant[..] == s;
      extratwos := extratwos * 2 + ret;
      ten := ten / 2;
      power := 2 * power;
    }
    FivesDef(x, neg, n);
    assert Signed(neg, n) == tenpwr;
  }

  lemma FivesDef(x: real, neg: bool, n: nat)
    ensures FivesTimes(x, neg, n) == TimesFives(x, Signed(neg, n))
  {
  }

  lemma FivesNone(neg: bool, x: real)
    ensures FivesTimes(x, neg, 0) == x
  {
  }

  lemma FivesMore(neg: bool, x: real, m: nat, n: nat)
    requires x >= 0.0
    ensures FivesTimes(x, neg, m + n) == FivesTimes(x, neg, m) * Fives(neg, n) && FivesTimes(x, neg, m) >= 0.0
  {
    hide RPow;
    FivesAdd(neg, m, n);
    RAssoc(x, Fives(neg, m), Fives(neg, n));
    MulNonneg(x, Fives(neg, m));
  }

  lemma PowerLeft(ten: nat, power: nat, done: nat, n: nat)
    requires ten > 0 && done < power && done + ten * power == n
    ensures power <= n
    ensures done + (if ten % 2 == 1 then power else 0) + ten / 2 * (2 * power) == n
  {
    AtLeastOne(ten, power);
    var q := ten / 2;
    if ten % 2 == 1 {
      assert ten == 2 * q + 1;
      assert (2 * q + 1) * power == q * (2 * power) + power;
    } else {
      assert ten == 2 * q;
      assert 2 * q * power == q * (2 * power);
    }
  }
}
