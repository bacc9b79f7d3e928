// The formats in the terms of IEEE 754.

module FloatIeee {
  import opened Common
  import opened Arithmetic
  import opened Positional
  import opened FloatLimbs
  import opened FloatRound
  import opened FloatFormat
  import opened FloatPack
  import opened FloatNearest
  import opened FloatReal
  import opened FloatPower
  import opened FloatBoundary

  // Precision with the leading bit, and the largest exponent, which is the bias.
  predicate Parameters(f: Format, bytes: nat, precision: nat, bias: nat) {
    f.bytes == bytes && f.mantissa + 1 == precision && f.exponent > 0 && Pow2(f.exponent - 1) == bias + 1
  }

  // IEEE 754-2008, table 3.5, for half, single, double and quadruple; the others are the extended format with its
  // integer bit, bfloat16 and an 8-bit format.
  lemma TableParameters()
    ensures Parameters(FLOAT_16, 2, 11, 15) && Parameters(FLOAT_32, 4, 24, 127) && Parameters(FLOAT_64, 8, 53, 1023)
    ensures Parameters(FLOAT_128, 16, 113, 16383) && Parameters(FLOAT_80, 10, 64, 16383)
    ensures Parameters(FLOAT_B16, 2, 8, 127) && Parameters(FLOAT_8, 1, 4, 7)
    ensures FLOAT_80.explicit == 1
    ensures forall f :: f in {FLOAT_8, FLOAT_16, FLOAT_B16, FLOAT_32, FLOAT_64, FLOAT_128} ==> f.explicit == 0
  {
    hide Pow2;
    SmallPowers();
    Pow2Add(7, 3);
    Pow2Add(7, 7);
  }

  lemma SmallPowers()
    ensures Pow2(3) == 8 && Pow2(4) == 16 && Pow2(7) == 128
  {
  }

  function Bias(f: Format): int
    requires WellFormed(f)
  {
    Pow2(f.exponent - 1) - 1
  }

  // Section 3.4: a word is a biased exponent and a fraction; exponent zero has no leading bit.  A format with an
  // integer bit stores the leading bit.
  function Meaning(f: Format, w: nat): real
    requires WellFormed(f)
  {
    var size := f.explicit + f.mantissa;
    Shape(f, w / Pow2(size), w % Pow2(size))
  }

  function Shape(f: Format, e: int, t: int): real
    requires WellFormed(f)
  {
    var unit := Pow2(f.mantissa) as real;
    if f.explicit == 1 then RPow(2.0, (if e == 0 then 1 else e) - Bias(f)) * (t as real / unit)
    else if e == 0 then RPow(2.0, 1 - Bias(f)) * (t as real / unit)
    else RPow(2.0, e - Bias(f)) * (1.0 + t as real / unit)
  }

  // Main result: magnitudes, counted in smallest subnormal numbers, are what words mean.
  lemma MagnitudeIsMeaning(f: Format, w: nat)
    requires WellFormed(f)
    ensures Magnitude(f, w) as real * Unit(f) == Meaning(f, w)
  {
    hide Pow2, RPow, Shr, Low, Unit, Shape, Bias;
    var size := f.explicit + f.mantissa;
    PartsOf(w, size);
    var e, t, s := Field(f, w), Low(w, size), Significand(f, w);
    var n: nat := if e == 0 then 0 else e - 1;
    RealProduct(s, Pow2(n));
    RPowIsPow2(n);
    UnitIs(f, n);
    RPowIsPow2(f.mantissa);
    Spread(s as real, RPow(2.0, n), Unit(f), Pow2(f.mantissa) as real, RPow(2.0, n + 1 - Bias(f)));
    ShapeIs(f, e, t, s, n);
  }

  lemma ShapeIs(f: Format, e: nat, t: nat, s: nat, n: nat)
    requires WellFormed(f) && n == (if e == 0 then 0 else e - 1)
    requires s == t + if f.explicit == 0 && e > 0 then Pow2(f.mantissa) else 0
    ensures Shape(f, e, t) == RPow(2.0, n + 1 - Bias(f)) * (s as real / Pow2(f.mantissa) as real)
  {
    hide Pow2, RPow, Bias;
    Fraction(t as real, Pow2(f.mantissa) as real);
  }

  lemma PartsOf(w: nat, size: nat)
    ensures w / Pow2(size) == Shr(w, size) && w % Pow2(size) == Low(w, size)
  {
  }

  // The unit times 2^n is the unit of the numbers with biased exponent n + 1.
  lemma UnitIs(f: Format, n: nat)
    requires WellFormed(f)
    ensures RPow(2.0, n) * Unit(f) * Pow2(f.mantissa) as real == RPow(2.0, n + 1 - Bias(f))
  {
    hide Pow2, RPow;
    RPowIsPow2(f.mantissa);
    RPowAdd(2.0, n, Emin(f) - f.mantissa);
    RPowAdd(2.0, n + (Emin(f) - f.mantissa), f.mantissa);
    assert n + (Emin(f) - f.mantissa) + f.mantissa == n + 1 - Bias(f);
  }

  lemma Spread(s: real, a: real, u: real, p: real, r: real)
    requires p > 0.0 && a * u * p == r
    ensures s * a * u == r * (s / p)
  {
    var q := s / p;
    assert s == q * p;
    assert q * p * a * u == q * (a * u * p);
  }

  lemma Fraction(t: real, p: real)
    requires p > 0.0
    ensures (t + p) / p == 1.0 + t / p
  {
    var x, q := (t + p) / p, t / p;
    assert x * p == t + p && q * p == t;
    assert (q + 1.0) * p == q * p + p;
    OrderTimes(x, q + 1.0, p);
  }

  // Infinity has all exponent bits and no fraction; the NaN of malformed constants has the first fraction bit too.
  lemma Specials(f: Format)
    requires WellFormed(f)
    ensures Field(f, Layout(f, InfinityOf(f))) == Pow2(f.exponent) - 1
    ensures Low(Layout(f, InfinityOf(f)), f.mantissa) == 0
    ensures Field(f, QuietNan(f)) == Pow2(f.exponent) - 1 && Low(QuietNan(f), f.mantissa) == Pow2(f.mantissa - 1)
  {
    hide Pow2, Shr, Low;
    var m, e, p := f.mantissa, Pow2(f.exponent) - 1, Pow2(f.mantissa);
    DoublePow(m - 1);
    Pow2Monotone(1, f.exponent);
    Pow2Values();
    ShrUnique(InfinityOf(f), m, e, 0);
    var h := if f.explicit == 1 then 2 * e + 1 else e;
    MulAssoc(2, e, p);
    NextMultiple(2 * e, p);
    var w := Layout(f, InfinityOf(f));
    assert w == h * p;
    ShrUnique(w, m, h, 0);
    ShrUnique(w + Pow2(m - 1), m, h, Pow2(m - 1));
    FieldOf(f, w, h, 0);
    FieldOf(f, w + Pow2(m - 1), h, Pow2(m - 1));
  }

  lemma FieldOf(f: Format, w: nat, h: nat, r: nat)
    requires WellFormed(f) && w == h * Pow2(f.mantissa) + r && r < Pow2(f.mantissa)
    ensures Field(f, w) == if f.explicit == 1 then h / 2 else h
  {
    hide Pow2, Shr, Low;
    var m, p := f.mantissa, Pow2(f.mantissa);
    if f.explicit == 1 {
      DoublePow(m);
      var q, b := h / 2, h % 2;
      assert h == 2 * q + b;
      Halve(q, b, p);
      ShrUnique(w, m + 1, q, b * p + r);
    } else {
      ShrUnique(w, m, h, r);
    }
  }

  lemma Halve(q: nat, b: nat, p: nat)
    requires b < 2
    ensures (2 * q + b) * p == q * (2 * p) + b * p && 0 <= b * p <= p
  {
    assert b == 0 || b == 1;
  }

  // One, in the formats that programs use most.
  lemma OneIs()
    ensures Meaning(FLOAT_32, 0x3F80_0000) == 1.0 && Meaning(FLOAT_64, 0x3FF0_0000_0000_0000) == 1.0
    ensures Meaning(FLOAT_80, 0x3FFF_8000_0000_0000_0000) == 1.0
  {
    OneOf(FLOAT_32, 127, 0x80_0000);
    OneOf(FLOAT_64, 1023, 0x10_0000_0000_0000);
    OneOf(FLOAT_80, 16383, 0x8000_0000_0000_0000);
  }

  lemma OneOf(f: Format, bias: nat, unit: nat)
    requires f in {FLOAT_32, FLOAT_64, FLOAT_80}
    requires bias == (if f == FLOAT_32 then 127 else if f == FLOAT_64 then 1023 else 16383)
    requires
      unit == if f == FLOAT_32 then 0x80_0000 else if f == FLOAT_64 then 0x10_0000_0000_0000 else 0x8000_0000_0000_0000
    ensures Meaning(f, if f == FLOAT_80 then bias * (2 * unit) + unit else bias * unit) == 1.0
  {
    hide Pow2, RPow;
    TableParameters();
    UnitPowers();
    RPowZero(2.0);
    DoublePow(63);
    assert Bias(f) == bias;
    var size := f.explicit + f.mantissa;
    if f == FLOAT_80 {
      QuotientOf(bias, 2 * unit, unit);
    } else {
      QuotientOf(bias, unit, 0);
    }
  }

  lemma QuotientOf(q: nat, d: nat, r: nat)
    requires r < d
    ensures (q * d + r) / d == q && (q * d + r) % d == r
  {
    DivUnique(q * d + r, d, q, r);
  }

  lemma UnitPowers()
    ensures Pow2(23) == 0x80_0000 && Pow2(52) == 0x10_0000_0000_0000 && Pow2(63) == 0x8000_0000_0000_0000
  {
    hide Pow2;
    Pow2Values();
    SmallPowers();
    Pow2Add(16, 7);
    Pow2Add(16, 4);
    Pow2Add(32, 20);
    Pow2Add(32, 31);
  }

  // Stored words have their lowest byte first.
  lemma {:induction false} LowestFirst(s: seq<byte>, i: nat)
    requires i < |s|
    ensures s[i] as nat == LittleEndian(s) / Power(256, i) % 256
  {
    var v := LittleEndian(s[1..]);
    assert LittleEndian(s) == s[0] + 256 * v;
    hide Power, LittleEndian;
    PowerFirst();
    if i == 0 {
      FirstByte(s[0], v);
    } else {
      LowestFirst(s[1..], i - 1);
      PowerStep(i);
      ByteUp(s[0], v, Power(256, i - 1));
    }
  }

  lemma FirstByte(b: byte, v: nat)
    ensures (b + 256 * v) / 1 % 256 == b
  {
  }

  lemma PowerFirst()
    ensures Power(256, 0) == 1
  {
  }

  lemma PowerStep(i: nat)
    requires i > 0
    ensures Power(256, i) == 256 * Power(256, i - 1)
  {
  }

  lemma ByteUp(b: byte, v: nat, p: nat)
    requires p > 0
    ensures 256 * p > 0 && (b + 256 * v) / (256 * p) == v / p
  {
    var q, r := v / p, v % p;
    QuotientNat(v, p);
    assert b + 256 * (q * p + r) == q * (256 * p) + (256 * r + b);
    DivUnique(b + 256 * v, 256 * p, q, 256 * r + b);
  }
}
