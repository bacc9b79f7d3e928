// float_multiply: six limbs by six limbs, truncated to the upper half and shifted up by at most one bit.

module FloatMultiply {
  import opened Arithmetic
  import opened FloatLimbs

  // A mantissa with its top bit set.
  predicate Normal(s: seq<nat>) {
    |s| == LIMBS && s[0] >= 0x8000_0000
  }

  function RowMax(k: int, i: nat, j: nat): nat {
    // contributions that accumulator k has received, each below 2^32
    2 * i + if k < i + j then 2 else if k == i + j && j > 0 then 1 else 0
  }

  // The 36 partial products, each split into a high and a low half.
  method Products(to: array<limb>, from: array<limb>) returns (temp: array<limb2>)
    requires to.Length == LIMBS && from.Length == LIMBS
    ensures fresh(temp) && temp.Length == 12
    ensures Val(temp[..]) == Val(to[..]) * Val(from[..])
    ensures forall k :: 0 <= k < 12 ==> temp[k] <= 12 * 0xFFFF_FFFF
  {
    hide Val, Weight, Pow2;
    temp := new limb2[12](_ => 0);
    ValZeros(temp[..]);
    assert to[..0] == [];
    ZeroVal();
    var i := 0;
    while i < LIMBS
      invariant 0 <= i <= LIMBS
      invariant Val(temp[..]) == Val(to[..i]) * Weight(6 - i) * Val(from[..])
      invariant forall k :: 0 <= k < 12 ==> temp[k] <= 2 * i * 0xFFFF_FFFF
    {
      Row(to, from, temp, i);
      RowDone(to[..], i, Val(from[..]));
      i := i + 1;
    }
    assert to[..6] == to[..];
    OneWeight();
  }

  lemma ZeroVal()
    ensures Val([]) == 0
  {
  }

  lemma OneWeight()
    ensures Weight(0) == 1
  {
  }

  lemma RowDone(a: seq<nat>, i: nat, f: nat)
    requires i < |a| == 6
    ensures Val(a[..i]) * Weight(6 - i) * f + a[i] * Weight(5 - i) * f == Val(a[..i + 1]) * Weight(5 - i) * f
  {
    assert a[..i + 1][..i] == a[..i];
    WeightUp(5 - i);
    RowAlgebra(Val(a[..i]), Weight(5 - i), a[i], f, LIMB);
  }

  lemma RowAlgebra(v: int, w: int, x: int, f: int, b: int)
    ensures v * (w * b) * f + x * w * f == (v * b + x) * w * f
  {
  }

  method Row(to: array<limb>, from: array<limb>, temp: array<limb2>, i: nat)
    requires to.Length == LIMBS && from.Length == LIMBS && temp.Length == 12 && i < LIMBS
    requires forall k :: 0 <= k < 12 ==> temp[k] <= 2 * i * 0xFFFF_FFFF
    modifies temp
    ensures Val(temp[..]) == old(Val(temp[..])) + to[i] * Weight(5 - i) * Val(from[..])
    ensures forall k :: 0 <= k < 12 ==> temp[k] <= (2 * i + 2) * 0xFFFF_FFFF
  {
    hide Val, Weight, Pow2;
    ghost var v := Val(temp[..]);
    assert from[..0] == [];
    ZeroVal();
    var j := 0;
    while j < LIMBS
      invariant 0 <= j <= LIMBS
      invariant Val(temp[..]) == v + to[i] * Weight(5 - i) * (Val(from[..j]) * Weight(6 - j))
      invariant forall k :: 0 <= k < 12 ==> temp[k] <= RowMax(k, i, j) * 0xFFFF_FFFF
    {
      Cell(to[i], from[j], temp, i, j);
      CellDone(from[..], j, to[i], i);
      j := j + 1;
    }
    assert from[..6] == from[..];
    OneWeight();
  }

  lemma CellDone(f: seq<nat>, j: nat, x: nat, i: nat)
    requires j < |f| == 6 && i < 6
    ensures x * Weight(5 - i) * (Val(f[..j]) * Weight(6 - j)) + x * f[j] * Weight(10 - i - j)
         == x * Weight(5 - i) * (Val(f[..j + 1]) * Weight(5 - j))
  {
    assert f[..j + 1][..j] == f[..j];
    WeightUp(5 - j);
    WeightAdd(5 - i, 5 - j);
    CellAlgebra(x, Weight(5 - i), Val(f[..j]), Weight(5 - j), f[j], LIMB);
  }

  lemma CellAlgebra(x: int, wi: int, v: int, wj: int, y: int, b: int)
    ensures x * wi * (v * (wj * b)) + x * y * (wi * wj) == x * wi * ((v * b + y) * wj)
  {
  }

  method Cell(x: limb, y: limb, temp: array<limb2>, i: nat, j: nat)
    requires temp.Length == 12 && i < 6 && j < 6
    requires forall k :: 0 <= k < 12 ==> temp[k] <= RowMax(k, i, j) * 0xFFFF_FFFF
    modifies temp
    ensures Val(temp[..]) == old(Val(temp[..])) + x * y * Weight(10 - i - j)
    ensures forall k :: 0 <= k < 12 ==> temp[k] <= RowMax(k, i, j + 1) * 0xFFFF_FFFF
  {
    hide Val, Weight, Pow2;
    ProductFits(x, y);
    var n: limb2 := x * y;
    Halves(n);
    AddHalves(temp, n / LIMB, n % LIMB, i, j);
    WeightUp(10 - i - j);
    SplitProduct(n, Weight(10 - i - j));
  }

  method AddHalves(temp: array<limb2>, h: limb, l: limb, i: nat, j: nat)
    requires temp.Length == 12 && i < 6 && j < 6
    requires forall k :: 0 <= k < 12 ==> temp[k] <= RowMax(k, i, j) * 0xFFFF_FFFF
    modifies temp
    ensures Val(temp[..]) == old(Val(temp[..])) + h * Weight(11 - i - j) + l * Weight(10 - i - j)
    ensures forall k :: 0 <= k < 12 ==> temp[k] <= RowMax(k, i, j + 1) * 0xFFFF_FFFF
  {
    hide Val, Weight, Pow2;
    AddAt(temp, i + j, h);
    AddAt(temp, i + j + 1, l);
  }

  lemma Halves(n: nat)
    requires n <= (LIMB - 1) * (LIMB - 1)
    ensures n / LIMB <= LIMB - 1 && n % LIMB <= LIMB - 1
  {
  }

  // Adds a half product to one accumulator.
  method AddAt(temp: array<limb2>, k: nat, x: nat)
    requires k < temp.Length && temp[k] + x < 0x1_0000_0000_0000_0000
    modifies temp
    ensures Val(temp[..]) == old(Val(temp[..])) + x * Weight(temp.Length - 1 - k)
    ensures temp[..] == old(temp[..])[k := old(temp[k]) + x]
  {
    hide Val, Weight, Pow2;
    ghost var s: seq<nat> := temp[..];
    temp[k] := temp[k] + x;
    assert temp[..] == s[k := s[k] + x];
    ValUpdate(s, k, s[k] + x);
  }

  lemma ProductFits(x: limb, y: limb)
    ensures x * y <= (LIMB - 1) * (LIMB - 1)
  {
    MulMono(x, LIMB - 1, y);
    MulMono(y, LIMB - 1, LIMB - 1);
  }

  lemma SplitProduct(n: nat, w: nat)
    ensures n / LIMB * (w * LIMB) + n % LIMB * w == n * w
  {
    assert n == n / LIMB * LIMB + n % LIMB;
    SplitAlgebra(n / LIMB, n % LIMB, w, LIMB);
  }

  lemma SplitAlgebra(q: int, r: int, w: int, b: int)
    ensures q * (w * b) + r * w == (q * b + r) * w
  {
  }

  // Carries from the low end; no accumulator overflows.
  method Propagate(temp: array<limb2>)
    requires temp.Length == 12 && forall k :: 0 <= k < 12 ==> temp[k] <= 12 * 0xFFFF_FFFF
    requires Val(temp[..]) < Weight(12)
    modifies temp
    ensures Val(temp[..]) == old(Val(temp[..]))
    ensures forall k :: 0 <= k < 12 ==> temp[k] < LIMB
  {
    hide Val, Weight, Pow2;
    var i := 11;
    while i > 0
      invariant 0 <= i <= 11
      invariant Val(temp[..]) == old(Val(temp[..]))
      invariant forall k :: 0 <= k < 12 ==> temp[k] <= 13 * LIMB
      invariant forall k :: 0 <= k < i ==> temp[k] <= 12 * 0xFFFF_FFFF
      invariant forall k :: i < k < 12 ==> temp[k] < LIMB
    {
      CarryOne(temp, i);
      i := i - 1;
    }
    FirstBound(temp[..]);
  }

  lemma FirstBound(s: seq<nat>)
    requires |s| == 12 && Val(s) < Weight(12)
    ensures s[0] < LIMB
  {
    hide Val, Weight, Pow2;
    ValFirst(s);
    WeightUp(11);
    if s[0] >= LIMB {
      MulMono(LIMB, s[0], Weight(11));
    }
  }

  method CarryOne(temp: array<limb2>, i: nat)
    requires temp.Length == 12 && 0 < i < 12 && temp[i] <= 13 * LIMB && temp[i - 1] <= 12 * 0xFFFF_FFFF
    modifies temp
    ensures Val(temp[..]) == old(Val(temp[..]))
    ensures temp[i] < LIMB && temp[i - 1] <= 13 * LIMB
    ensures forall k :: 0 <= k < 12 && k != i && k != i - 1 ==> temp[k] == old(temp[k])
  {
    hide Val, Weight, Pow2;
    ghost var s0: seq<nat> := temp[..];
    var x := temp[i];
    temp[i - 1] := temp[i - 1] + x / LIMB;
    ghost var s1: seq<nat> := temp[..];
    assert s1 == s0[i - 1 := s0[i - 1] + x / LIMB];
    temp[i] := x % LIMB;
    assert temp[..] == s1[i := x % LIMB];
    ValUpdate(s0, i - 1, s0[i - 1] + x / LIMB);
    ValUpdate(s1, i, x % LIMB);
    WeightUp(11 - i);
    SplitProduct(x, Weight(11 - i));
    Subtract(x % LIMB, x, Weight(11 - i));
  }

  // The value of the product decides the shift; the result is the exact product, truncated.
  method Multiply(to: array<limb>, from: array<limb>) returns (ret: int)
    requires to.Length == LIMBS && from.Length == LIMBS
    modifies to
    ensures
      var p := old(Val(to[..]) * Val(from[..]));
      && ret == (if p >= Pow2(383) then 0 else -1)
      && Val(to[..]) == p * (if ret == 0 then 1 else 2) / Pow2(192)
    ensures Normal(old(to[..])) && Normal(old(from[..])) ==> Normal(to[..])
  {
    hide Val, Weight, Pow2;
    ghost var a, b := to[..], from[..];
    var temp := Products(to, from);
    ProductBound(a, b);
    Propagate(temp);
    ghost var s := temp[..];
    HighBit(s);
    if temp[0] >= 0x8000_0000 {
      for i := 0 to LIMBS
        invariant forall k :: 0 <= k < i ==> to[k] == temp[k]
        invariant temp[..] == s
      {
        to[i] := temp[i];
      }
      ret := 0;
      assert to[..] == s[..6] && s == s[..6] + s[6..];
      ValHigh(s[..6], s[6..]);
      SixWeights();
    } else {
      for i := 0 to LIMBS
        invariant forall k :: 0 <= k < i ==> to[k] == Doubled(s, k)
        invariant temp[..] == s
      {
        to[i] := temp[i] * 2 % LIMB + if temp[i + 1] >= 0x8000_0000 then 1 else 0;
      }
      ret := -1;
      DoubledValue(s, to[..]);
      SixWeights();
    }
    if Normal(a) && Normal(b) {
      NormalProduct(a, b, s);
    }
  }

  function Doubled(s: seq<nat>, k: nat): nat
    requires k + 1 < |s|
  {
    s[k] * 2 % LIMB + if s[k + 1] >= 0x8000_0000 then 1 else 0
  }

  lemma SixWeights()
    ensures Weight(6) == Pow2(192) && Weight(12) == Pow2(384)
  {
  }

  lemma ProductBound(a: seq<limb>, b: seq<limb>)
    requires |a| == LIMBS && |b| == LIMBS
    ensures Val(a) * Val(b) < Weight(12)
  {
    ValBound(a);
    ValBound(b);
    WeightAdd(6, 6);
    LessProduct(Val(a), Val(b), Weight(6), Weight(6));
  }

  lemma LessProduct(x: nat, y: nat, a: nat, b: nat)
    requires x < a && y < b
    ensures x * y < a * b
  {
    assert x * y <= x * b;
    assert x * b < a * b;
  }

  lemma HighBit(s: seq<nat>)
    requires |s| == 12 && forall i :: 0 <= i < 12 ==> s[i] < LIMB
    ensures s[0] >= 0x8000_0000 <==> Val(s) >= Pow2(383)
  {
    ValFirst(s);
    ValBound(s[1..]);
    Pow2Values();
    Pow2Add(352, 31);
    TopBit(s[0], Weight(11), Val(s[1..]), 0x8000_0000);
  }

  lemma TopBit(x: nat, w: nat, r: nat, t: nat)
    requires r < w
    ensures x >= t <==> x * w + r >= t * w
  {
    if x >= t {
      MulMono(t, x, w);
    } else {
      MulMono(x + 1, t, w);
    }
  }

  // Doubling each limb and taking in the top bit of the next doubles the number, cut at the front.
  lemma DoubledValue(s: seq<nat>, t: seq<nat>)
    requires |s| == 12 && (forall i :: 0 <= i < 12 ==> s[i] < LIMB) && s[0] < 0x8000_0000
    requires |t| == 6 && forall k :: 0 <= k < 6 ==> t[k] == Doubled(s, k)
    ensures Val(t) == 2 * Val(s) / Weight(6)
  {
    hide Val, Weight, Pow2;
    DoubledPrefix(s, t, 6);
    assert t[..6] == t && s == s[..6] + s[6..];
    ValAppend(s[..6], s[6..]);
    ValFirst(s[6..]);
    ValBound(s[7..]);
    assert s[6..][1..] == s[7..];
    var h := if s[6] >= 0x8000_0000 then 1 else 0;
    WeightUp(5);
    HalfRest(s[6], Weight(5), Val(s[7..]), h);
    assert 2 * Val(s) == Val(t) * Weight(6) + (2 * Val(s[6..]) - h * Weight(6)) by {
      DoubleAlgebra(Val(s[..6]), Weight(6), Val(s[6..]), h);
    }
    DivUnique(2 * Val(s), Weight(6), Val(t), 2 * Val(s[6..]) - h * Weight(6));
  }

  lemma DoubleAlgebra(v: int, w: int, r: int, h: int)
    ensures 2 * (v * w + r) == (2 * v + h) * w + (2 * r - h * w)
  {
  }

  lemma HalfRest(x: nat, w: nat, r: nat, h: nat)
    requires x < LIMB && r < w && h == if x >= 0x8000_0000 then 1 else 0
    ensures 0 <= 2 * (x * w + r) - h * (w * LIMB) < w * LIMB
  {
    if h == 1 {
      MulMono(0x8000_0000, x, w);
      MulMono(x, LIMB - 1, w);
    } else {
      MulMono(x, 0x7FFF_FFFF, w);
    }
  }

  lemma {:induction false} DoubledPrefix(s: seq<nat>, t: seq<nat>, n: nat)
    requires |s| == 12 && (forall i :: 0 <= i < 12 ==> s[i] < LIMB) && s[0] < 0x8000_0000
    requires |t| == 6 && (forall k :: 0 <= k < 6 ==> t[k] == Doubled(s, k)) && n <= 6
    ensures n > 0 ==> Val(t[..n]) == 2 * Val(s[..n]) + if s[n] >= 0x8000_0000 then 1 else 0
  {
    if n == 1 {
      ValOne(t[0]);
      ValOne(s[0]);
      assert t[..1] == [t[0]] && s[..1] == [s[0]];
    } else if n > 1 {
      DoubledPrefix(s, t, n - 1);
      assert t[..n][..n - 1] == t[..n - 1] && s[..n][..n - 1] == s[..n - 1];
    }
  }

  lemma NormalVal(s: seq<limb>)
    requires |s| == LIMBS
    ensures Normal(s) <==> Val(s) >= Pow2(191)
  {
    ValFirst(s);
    ValBound(s[1..]);
    Pow2Values();
    Pow2Add(160, 31);
    TopBit(s[0], Weight(5), Val(s[1..]), 0x8000_0000);
  }

  lemma NormalProduct(a: seq<limb>, b: seq<limb>, s: seq<nat>)
    requires |a| == LIMBS && |b| == LIMBS && Normal(a) && Normal(b) && Val(s) == Val(a) * Val(b)
    requires |s| == 12 && forall i :: 0 <= i < 12 ==> s[i] < LIMB
    ensures s[0] < 0x8000_0000 ==> Doubled(s, 0) >= 0x8000_0000
  {
    hide Val, Pow2, Weight;
    ElevenWeights();
    NormalVal(a);
    NormalVal(b);
    Pow2Add(191, 191);
    GreaterProduct(Val(a), Val(b), Pow2(191), Pow2(191));
    ValFirst(s);
    ValBound(s[1..]);
    Pow2Values();
    Pow2Add(352, 30);
    TopBit(s[0], Weight(11), Val(s[1..]), 0x4000_0000);
  }

  lemma ElevenWeights()
    ensures Weight(11) == Pow2(352)
  {
  }

  lemma GreaterProduct(x: nat, y: nat, a: nat, b: nat)
    requires x >= a && y >= b
    ensures x * y >= a * b
  {
    assert x * y >= a * y;
    assert a * y >= a * b;
  }
}
