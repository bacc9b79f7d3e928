// ieee_shr and ieee_round: shifting a six-limb mantissa right and rounding it to its top bits.

module FloatRound {
  import opened Arithmetic
  import opened FloatLimbs

  // The 32-bit shifts, and the bits that a right shift loses.
  function Shr(x: nat, k: nat): nat {
    QuotientNat(x, Pow2(k));
    x / Pow2(k)
  }

  lemma QuotientNat(x: nat, d: nat)
    requires d > 0
    ensures x / d >= 0
  {
  }

  function Shl(x: nat, k: nat): nat {
    x * Pow2(k) % LIMB
  }

  function Low(x: nat, k: nat): nat {
    x % Pow2(k)
  }

  lemma ShrParts(x: nat, k: nat)
    ensures x == Shr(x, k) * Pow2(k) + Low(x, k) && Low(x, k) < Pow2(k)
  {
  }

  lemma ShrUnique(x: nat, k: nat, q: nat, r: nat)
    requires x == q * Pow2(k) + r && r < Pow2(k)
    ensures Shr(x, k) == q && Low(x, k) == r
  {
    DivUnique(x, Pow2(k), q, r);
  }

  lemma ShlUnique(x: nat, k: nat, q: nat, r: nat)
    requires x * Pow2(k) == q * LIMB + r && r < LIMB
    ensures Shl(x, k) == r
  {
    DivUnique(x * Pow2(k), LIMB, q, r);
  }

  // Limb k of a mantissa shifted right by offs limbs and sr bits.
  function Shifted(s: seq<nat>, offs: nat, sr: nat, k: nat): nat
    requires k < |s| && sr < 32
  {
    if k < offs then 0
    else if k == offs then Shr(s[0], sr)
    else Shl(s[k - offs - 1], 32 - sr) + Shr(s[k - offs], sr)
  }

  // Shifting right divides by the power of two. By zero the code clears the first limb instead.
  method ShiftRight(mant: array<limb>, i: nat)
    requires mant.Length == LIMBS
    modifies mant
    ensures i > 0 ==> Val(mant[..]) == old(Val(mant[..])) / Pow2(i)
    ensures i == 0 ==> mant[..] == old(mant[..])[0 := 0]
  {
    hide Val, Weight, Pow2, Shifted, Shl, Shr;
    ghost var s := mant[..];
    var j := 0;
    var sr, offs := i % 32, i / 32;
    if sr == 0 {
      if offs != 0 {
        j := 5;
        while j >= offs
          invariant -1 <= j <= 5 && (j >= offs - 1 || j == 5)
          invariant forall k :: 0 <= k <= j ==> mant[k] == s[k]
          invariant forall k :: j < k < 6 ==> mant[k] == Shifted(s, offs, 0, k)
        {
          ShiftedWhole(s, offs, j);
          mant[j] := mant[j - offs];
          j := j - 1;
        }
      }
    } else if offs > 5 {
      j := 5;
    } else {
      j := ShiftLimbs(mant, offs, sr);
    }
    ShiftedBelow(s, offs, sr);
    while j >= 0
      invariant -1 <= j <= 5
      invariant i > 0 ==> forall k :: j < k < 6 ==> mant[k] == Shifted(s, offs, sr, k)
      invariant i > 0 ==> j < offs
      invariant i == 0 ==> j <= 0 && mant[..] == if j < 0 then s[0 := 0] else s
    {
      mant[j] := 0;
      j := j - 1;
    }
    if i > 0 {
      ShiftedValue(s, mant[..], offs, sr);
    }
  }

  // A shift by some bits, with or without whole limbs.
  method ShiftLimbs(mant: array<limb>, offs: nat, sr: nat) returns (j: int)
    requires mant.Length == LIMBS && offs <= 5 && 0 < sr < 32
    modifies mant
    ensures j == offs - 1
    ensures forall k :: offs <= k < 6 ==> mant[k] == Shifted(old(mant[..]), offs, sr, k)
  {
    hide Shifted, Pow2, Shl, Shr, Or;
    ghost var s := mant[..];
    var sl := 32 - sr;
    ShiftFits(s, offs, sr);
    var n: limb := Shr(mant[5 - offs], sr);
    j := 5;
    while j > offs
      invariant offs <= j <= 5
      invariant forall k :: 0 <= k <= j ==> mant[k] == s[k]
      invariant forall k :: j < k < 6 ==> mant[k] == Shifted(s, offs, sr, k)
      invariant n == Shr(s[j - offs], sr)
    {
      var m := mant[j - offs - 1];
      ShiftedAt(s, offs, sr, j);
      HalvesOr(m, s[j - offs], sr);
      mant[j] := Or(Shl(m, sl), n);
      n := Shr(m, sr);
      j := j - 1;
    }
    ShiftedAt(s, offs, sr, offs);
    mant[j] := n;
    j := j - 1;
  }

  lemma ShiftedAt(s: seq<nat>, offs: nat, sr: nat, k: nat)
    requires offs <= k < |s| && sr < 32
    ensures Shifted(s, offs, sr, k) ==
            if k == offs then Shr(s[0], sr)
            else Shl(s[k - offs - 1], 32 - sr) + Shr(s[k - offs], sr)
  {
  }

  lemma ShiftedBelow(s: seq<nat>, offs: nat, sr: nat)
    requires sr < 32
    ensures forall k :: 0 <= k < |s| && k < offs ==> Shifted(s, offs, sr, k) == 0
  {
  }

  lemma ShiftedWhole(s: seq<limb>, offs: nat, k: nat)
    requires offs <= k < |s|
    ensures Shifted(s, offs, 0, k) == s[k - offs]
  {
    hide Shl, Shr;
    Pow2Values();
    Pow2Zero();
    ShrUnique(s[k - offs], 0, s[k - offs], 0);
    if k != offs {
      ShlUnique(s[k - offs - 1], 32, s[k - offs - 1], 0);
    }
  }

  // Every limb of the result fits in 32 bits.
  lemma ShiftFits(s: seq<limb>, offs: nat, sr: nat)
    requires 0 < sr < 32
    ensures forall k :: 0 <= k < |s| ==> Shr(s[k], sr) < LIMB
    ensures forall k :: offs <= k < |s| ==> Shifted(s, offs, sr, k) < LIMB
  {
    hide Pow2, Shl, Shr;
    forall k | 0 <= k < |s| ensures Shr(s[k], sr) < Pow2(32 - sr) <= LIMB {
      Quotient(s[k], sr);
    }
    forall k | offs <= k < |s| ensures Shifted(s, offs, sr, k) < LIMB {
      if k > offs {
        HalvesFit(s[k - offs - 1], s[k - offs], sr);
      }
    }
  }

  lemma HalvesFit(x: limb, y: limb, sr: nat)
    requires sr < 32
    ensures Shl(x, 32 - sr) + Shr(y, sr) < LIMB
  {
    hide Pow2, Shl, Shr, Low;
    Remainder(x, sr);
    ShrParts(x, sr);
    Quotient(y, sr);
    SplitLimb(sr);
    BoundStep(Low(x, sr), Pow2(sr), Shr(y, sr), Pow2(32 - sr));
  }

  lemma HalvesOr(x: limb, y: limb, sr: nat)
    requires sr < 32
    ensures Or(Shl(x, 32 - sr), Shr(y, sr)) == Shl(x, 32 - sr) + Shr(y, sr)
  {
    hide Pow2, Shl, Shr, Low, Or;
    Remainder(x, sr);
    Quotient(y, sr);
    OrDisjoint(Low(x, sr), Shr(y, sr), 32 - sr);
  }

  lemma SplitLimb(sr: nat)
    requires sr < 32
    ensures Pow2(sr) * Pow2(32 - sr) == LIMB
  {
    hide Pow2;
    Pow2Values();
    Pow2Add(sr, 32 - sr);
  }

  lemma Quotient(x: limb, sr: nat)
    requires sr < 32
    ensures Shr(x, sr) < Pow2(32 - sr) <= LIMB
  {
    hide Pow2, Shr, Low;
    Pow2Values();
    SplitLimb(sr);
    Pow2Monotone(32 - sr, 32);
    ShrParts(x, sr);
    if Shr(x, sr) >= Pow2(32 - sr) {
      MulMono(Pow2(32 - sr), Shr(x, sr), Pow2(sr));
    }
  }

  // The bits that a limb loses on the right come back at the top of the next limb.
  lemma Remainder(x: limb, sr: nat)
    requires sr < 32
    ensures Shl(x, 32 - sr) == Low(x, sr) * Pow2(32 - sr)
  {
    hide Pow2, Shr, Low, Shl;
    var p, w, q, r := Pow2(sr), Pow2(32 - sr), Shr(x, sr), Low(x, sr);
    ShrParts(x, sr);
    SplitLimb(sr);
    RemainderAlgebra(q, p, r, w);
    BoundStep(r, p, 0, w);
    ShlUnique(x, 32 - sr, q, r * w);
  }

  lemma RemainderAlgebra(q: int, p: int, r: int, w: int)
    ensures (q * p + r) * w == q * (p * w) + r * w
  {
  }

  lemma ShiftedValue(s: seq<limb>, t: seq<limb>, offs: nat, sr: nat)
    requires |s| == LIMBS && |t| == LIMBS && sr < 32
    requires forall k :: 0 <= k < 6 ==> t[k] == Shifted(s, offs, sr, k)
    ensures Val(t) == Val(s) / Pow2(32 * offs + sr)
  {
    hide Pow2, Val, Shr, Low, Shl;
    if offs >= 6 {
      ValBound(s);
      ShiftedBelow(s, offs, sr);
      ValZeros(t);
      Pow2Monotone(192, 32 * offs + sr);
      DivUnique(Val(s), Pow2(32 * offs + sr), 0, Val(s));
    } else {
      var n := 6 - offs;
      ShiftedSuffix(s, t, offs, sr);
      assert s == s[..n] + s[n..];
      ValAppend(s[..n], s[n..]);
      ValBound(s[n..]);
      ShrParts(s[n - 1], sr);
      WholeAndBits(Val(s[..n]), Val(t), s[n - 1], sr, offs, Val(s[n..]));
    }
  }

  lemma WholeAndBits(hi: nat, v: nat, x: nat, sr: nat, offs: nat, lo: nat)
    requires hi == v * Pow2(sr) + Low(x, sr) && lo < Weight(offs)
    ensures (hi * Weight(offs) + lo) / Pow2(32 * offs + sr) == v
  {
    hide Pow2, Shr, Low;
    var r, w := Low(x, sr), Weight(offs);
    ShrParts(x, sr);
    Pow2Add(sr, 32 * offs);
    ShiftAlgebra(v, Pow2(sr), r, w, lo);
    BoundStep(r, Pow2(sr), lo, w);
    DivUnique(hi * w + lo, Pow2(32 * offs + sr), v, r * w + lo);
  }

  lemma ShiftAlgebra(v: int, p: int, r: int, w: int, l: int)
    ensures (v * p + r) * w + l == v * (p * w) + (r * w + l)
  {
  }

  // Behind offs zero limbs the result is the first limbs shifted right.
  lemma ShiftedSuffix(s: seq<limb>, t: seq<limb>, offs: nat, sr: nat)
    requires |s| == LIMBS && |t| == LIMBS && sr < 32 && offs < 6
    requires forall k :: 0 <= k < 6 ==> t[k] == Shifted(s, offs, sr, k)
    ensures Val(s[..6 - offs]) == Val(t) * Pow2(sr) + Low(s[5 - offs], sr)
  {
    hide Pow2, Val, Shr, Low, Shl;
    assert t == t[..offs] + t[offs..];
    ValAppend(t[..offs], t[offs..]);
    ShiftedBelow(s, offs, sr);
    ValZeros(t[..offs]);
    ShiftedPrefix(s, t, offs, sr, 6 - offs);
    assert t[offs..offs + (6 - offs)] == t[offs..];
  }

  lemma {:induction false} ShiftedPrefix(s: seq<limb>, t: seq<limb>, offs: nat, sr: nat, n: nat)
    requires |s| == LIMBS && |t| == LIMBS && sr < 32 && 0 < n <= 6 - offs
    requires forall k :: 0 <= k < 6 ==> t[k] == Shifted(s, offs, sr, k)
    ensures Val(s[..n]) == Val(t[offs..offs + n]) * Pow2(sr) + Low(s[n - 1], sr)
  {
    hide Pow2, Val, Shifted, Shr, Low, Shl;
    ShiftedAt(s, offs, sr, offs + n - 1);
    var x := s[n - 1];
    ShrParts(x, sr);
    if n == 1 {
      ValOne(x);
      ValOne(t[offs]);
      assert s[..1] == [x] && t[offs..offs + 1] == [t[offs]];
    } else {
      var y, v := s[n - 2], Val(t[offs..offs + n - 1]);
      ShiftedPrefix(s, t, offs, sr, n - 1);
      ValSnoc(s[..n]);
      ValSnoc(t[offs..offs + n]);
      assert s[..n][..n - 1] == s[..n - 1];
      assert t[offs..offs + n][..n - 1] == t[offs..offs + n - 1];
      Remainder(y, sr);
      SplitLimb(sr);
      PrefixAlgebra(v, Pow2(sr), Low(y, sr), Pow2(32 - sr), Shr(x, sr), Low(x, sr));
    }
  }

  lemma PrefixAlgebra(v: int, p: int, r: int, w: int, q: int, z: int)
    ensures (v * p + r) * (p * w) + (q * p + z) == (v * (p * w) + (r * w + q)) * p + z
  {
    assert (v * p) * (p * w) == (v * (p * w)) * p;
    assert r * (p * w) == (r * w) * p;
  }

  datatype Rounding = Near | Zero | Down | Up

  // Bits counted from the most significant one.
  predicate TestBit(s: seq<limb>, b: nat)
    requires b < 32 * |s|
  {
    Shr(s[b / 32], 31 - b % 32) % 2 == 1
  }

  // What the first bits of a mantissa are worth, and what lies behind them.
  function Kept(v: nat, bits: nat): nat
    requires bits <= 192
  {
    Shr(v, 192 - bits)
  }

  function Rest(v: nat, bits: nat): nat
    requires bits <= 192
  {
    Low(v, 192 - bits)
  }

  predicate TowardZero(mode: Rounding, minus: bool) {
    mode == Zero || mode == if minus then Up else Down
  }

  // Whether the kept bits go up by one, given what lies behind them and the unit of the last kept bit.
  // To the nearest, ties to even; away from zero only when at least half a unit is lost.
  predicate GoesUp(mode: Rounding, minus: bool, kept: nat, rest: nat, unit: nat) {
    if mode == Near then 2 * rest > unit || (2 * rest == unit && kept % 2 == 1)
    else !TowardZero(mode, minus) && 2 * rest >= unit
  }

  // Up and down are toward zero or away from it as the sign says.
  lemma Directions(minus: bool, kept: nat, rest: nat, unit: nat)
    ensures !GoesUp(Zero, minus, kept, rest, unit)
    ensures GoesUp(Up, minus, kept, rest, unit) <==> !minus && 2 * rest >= unit
    ensures GoesUp(Down, minus, kept, rest, unit) <==> minus && 2 * rest >= unit
  {
  }

  // Rounding away from zero should go to the least multiple of the unit that is not below the number; it
  // does if and only if nothing or at least half a unit lies behind the kept bits.
  lemma AwayRounds(mode: Rounding, minus: bool, kept: nat, rest: nat, unit: nat)
    requires mode != Near && !TowardZero(mode, minus) && rest < unit
    ensures
      var c := if GoesUp(mode, minus, kept, rest, unit) then kept + 1 else kept;
      (c * unit >= kept * unit + rest && (c - 1) * unit < kept * unit + rest) <==> rest == 0 || 2 * rest >= unit
  {
    assert (kept + 1) * unit == kept * unit + unit;
    assert (kept - 1) * unit == kept * unit - unit;
  }

  // No caller shifts by zero.  What it would leave is the mantissa only if the first limb is zero anyway.
  lemma ShiftByZero(s: seq<limb>)
    requires |s| == LIMBS
    ensures Val(s[0 := 0]) == Val(s) <==> s[0] == 0
  {
    hide Val, Weight;
    ValUpdate(s, 0, 0);
    if s[0] != 0 {
      MulMono(1, s[0], Weight(5));
    }
    assert s[0] == 0 ==> s[0 := 0] == s;
  }

  // The bit behind the kept ones, and whether any bit from there on is set.
  predicate HalfSet(s: seq<limb>, i: nat, p: nat)
    requires i < |s| && p < 32
  {
    Shr(s[i], 31 - p) % 2 == 1
  }

  predicate AnySet(s: seq<limb>, i: nat, p: nat)
    requires i < |s| && p < 32
  {
    Low(s[i], 32 - p) != 0 || exists j :: i < j < |s| && s[j] != 0
  }

  // The first bits bits of the result are those of the argument, rounded; all ones wrap to zero.
  method Round(mode: Rounding, minus: bool, mant: array<limb>, bits: nat) returns (over: bool)
    requires mant.Length == LIMBS && 0 < bits < 192
    modifies mant
    ensures
      var v := old(Val(mant[..]));
      var kept := Kept(v, bits);
      Kept(Val(mant[..]), bits) ==
      if GoesUp(mode, minus, kept, Rest(v, bits), Pow2(192 - bits)) then (kept + 1) % Pow2(bits) else kept
    ensures
      var v := old(Val(mant[..]));
      var up :=
        if mode == Near then GoesUp(Near, minus, Kept(v, bits), Rest(v, bits), Pow2(192 - bits))
        else !TowardZero(mode, minus) && Rest(v, bits) > 0;
      over <==> up && mant[0] == 0
  {
    hide Val, Pow2, Weight, Shr, Low, Kept, Rest, AnySet, TestBit;
    var i, p := bits / 32, bits % 32;
    ghost var s := mant[..];
    RestFacts(s, i, p);
    HalfBit(mant[i], p);
    if mode == Near {
      if Shr(mant[i], 31 - p) % 2 == 1 {
        mant[i] := mant[i] - Pow2(31 - p);
        var m := CollectBits(mant, i, p);
        mant[i] := mant[i] + Pow2(31 - p);
        assert mant[..] == s;
        if m {
          over := RoundAbsUp(mant, i, p);
        } else {
          LastKeptBit(s, i, p);
          if TestBit(mant[..], bits - 1) {
            over := RoundAbsUp(mant, i, p);
          } else {
            over := RoundAbsDown(mant, i, p);
          }
        }
      } else {
        over := RoundAbsDown(mant, i, p);
      }
    } else if TowardZero(mode, minus) {
      over := RoundAbsDown(mant, i, p);
    } else {
      var m := CollectBits(mant, i, p);
      if m {
        over := RoundAbsUp(mant, i, p);
      } else {
        over := RoundAbsDown(mant, i, p);
      }
    }
  }

  method CollectBits(mant: array<limb>, i: nat, p: nat) returns (m: bool)
    requires mant.Length == LIMBS && i < 6 && p < 32
    ensures m <==> AnySet(mant[..], i, p)
  {
    m := Low(mant[i], 32 - p) != 0;
    for j := i + 1 to LIMBS
      invariant m <==> Low(mant[i], 32 - p) != 0 || exists k :: i < k < j && mant[k] != 0
    {
      m := m || mant[j] != 0;
    }
  }

  method RoundAbsDown(mant: array<limb>, i: nat, p: nat) returns (over: bool)
    requires mant.Length == LIMBS && i < 6 && p < 32
    modifies mant
    ensures Kept(Val(mant[..]), 32 * i + p) == old(Kept(Val(mant[..]), 32 * i + p))
    ensures !over
  {
    hide Val, Pow2, Weight, Shr, Low, Kept;
    ghost var s := mant[..];
    Cleared(mant[i], p);
    mant[i] := mant[i] - Low(mant[i], 31 - p);
    ClearTail(mant, i + 1);
    assert mant[..i] == s[..i];
    KeptParts(s, i, p);
    KeptParts(mant[..], i, p);
    over := false;
  }

  method ClearTail(mant: array<limb>, n: nat)
    requires n <= mant.Length
    modifies mant
    ensures forall k :: 0 <= k < mant.Length ==> mant[k] == if k < n then old(mant[k]) else 0
  {
    for j := n to mant.Length
      invariant forall k :: 0 <= k < mant.Length ==> mant[k] == if n <= k < j then 0 else old(mant[k])
    {
      mant[j] := 0;
    }
  }

  // Adds the bit behind the kept ones and carries to the front.
  method RoundAbsUp(mant: array<limb>, i: nat, p: nat) returns (over: bool)
    requires mant.Length == LIMBS && i < 6 && p < 32 && 32 * i + p > 0
    modifies mant
    ensures
      var kept := old(Kept(Val(mant[..]), 32 * i + p));
      Kept(Val(mant[..]), 32 * i + p) ==
      if old(HalfSet(mant[..], i, p)) then (kept + 1) % Pow2(32 * i + p) else kept
    ensures over <==> mant[0] == 0
  {
    hide Val, Pow2, Weight, Shr, Low, Kept;
    ghost var s := mant[..];
    Cleared(mant[i], p);
    ghost var x := mant[i] - Low(mant[i], 31 - p) + Pow2(31 - p);
    mant[i] := (mant[i] - Low(mant[i], 31 - p) + Pow2(31 - p)) % LIMB;
    ClearTail(mant, i + 1);
    assert mant[..i] == s[..i];
    Wrapped(mant[..], i, x);
    ghost var t := Val(s[..i]) * LIMB + x;
    var k := i;
    while k > 0 && mant[k] == 0
      invariant 0 <= k <= i
      invariant Val(mant[..]) + (if mant[k] == 0 then Weight(6 - k) else 0) == t * Weight(5 - i)
    {
      k := k - 1;
      CarryUp(mant, k);
    }
    over := mant[0] == 0;
    ValBound(mant[..]);
    UpValue(s, i, p, Val(mant[..]), mant[k] == 0);
  }

  method CarryUp(mant: array<limb>, k: nat)
    requires mant.Length == LIMBS && k < 5 && mant[k + 1] == 0
    modifies mant
    ensures mant[k] == (old(mant[k]) + 1) % LIMB && forall j :: 0 <= j < 6 && j != k ==> mant[j] == old(mant[j])
    ensures Val(mant[..]) + (if mant[k] == 0 then Weight(6 - k) else 0) == old(Val(mant[..])) + Weight(5 - k)
  {
    hide Val, Weight;
    ghost var s: seq<nat> := mant[..];
    mant[k] := (mant[k] + 1) % LIMB;
    assert mant[..] == s[k := (s[k] + 1) % LIMB];
    ValUpdate(s, k, (s[k] + 1) % LIMB);
    WeightUp(5 - k);
    if s[k] + 1 == LIMB {
      CarryAlgebra(s[k], Weight(5 - k), LIMB);
    } else {
      assert (s[k] + 1) % LIMB == s[k] + 1;
    }
  }

  lemma CarryAlgebra(x: int, w: int, b: int)
    requires x + 1 == b
    ensures (0 - x) * w + w * b == w
  {
    assert (0 - x) * w == w - w * b;
  }

  // The bit behind the kept ones, on its own.
  lemma HalfBit(x: limb, p: nat)
    requires p < 32
    ensures Pow2(32 - p) == 2 * Pow2(31 - p) && Pow2(31 - p) < LIMB
    ensures
      var b := Shr(x, 31 - p) % 2;
      && Shr(x, 31 - p) == 2 * Shr(x, 32 - p) + b
      && Low(x, 32 - p) == b * Pow2(31 - p) + Low(x, 31 - p)
      && (b == 1 ==> x >= Pow2(31 - p) && Low(x - Pow2(31 - p), 32 - p) == Low(x, 31 - p))
  {
    hide Shr, Low, Pow2;
    DoublePow(31 - p);
    Pow2Values();
    Pow2Monotone(31 - p, 31);
    ShrParts(x, 31 - p);
    var n := Shr(x, 31 - p);
    SplitHalf(x, p, n / 2, n % 2);
  }

  lemma SplitHalf(x: nat, p: nat, q: nat, b: nat)
    requires p < 32 && b < 2 && Shr(x, 31 - p) == 2 * q + b && Pow2(32 - p) == 2 * Pow2(31 - p)
    ensures Shr(x, 32 - p) == q && Low(x, 32 - p) == b * Pow2(31 - p) + Low(x, 31 - p)
    ensures b == 1 ==> x >= Pow2(31 - p) && Low(x - Pow2(31 - p), 32 - p) == Low(x, 31 - p)
  {
    hide Shr, Low, Pow2;
    var h, l := Pow2(31 - p), Low(x, 31 - p);
    ShrParts(x, 31 - p);
    HalfAlgebra(q, b, h, l);
    if b == 1 {
      ShrUnique(x, 32 - p, q, h + l);
      ShrUnique(x - h, 32 - p, q, l);
    } else {
      ShrUnique(x, 32 - p, q, l);
    }
  }

  lemma HalfAlgebra(q: int, b: int, h: int, l: int)
    ensures (2 * q + b) * h + l == q * (2 * h) + (b * h + l)
  {
  }

  // How a mantissa falls into kept bits and the rest.
  lemma KeptParts(s: seq<limb>, i: nat, p: nat)
    requires |s| == LIMBS && i < 6 && p < 32
    ensures Kept(Val(s), 32 * i + p) == Val(s[..i]) * Pow2(p) + Shr(s[i], 32 - p)
    ensures Rest(Val(s), 32 * i + p) == Low(s[i], 32 - p) * Weight(5 - i) + Val(s[i + 1..])
    ensures Val(s[i + 1..]) < Weight(5 - i) && Pow2(192 - (32 * i + p)) == Pow2(32 - p) * Weight(5 - i)
    ensures Val(s) == (Val(s[..i]) * LIMB + s[i]) * Weight(5 - i) + Val(s[i + 1..])
    ensures Pow2(p) * Pow2(32 - p) == LIMB
  {
    hide Val, Shr, Low, Pow2;
    var hi, x, w, lo := Val(s[..i]), s[i], Weight(5 - i), Val(s[i + 1..]);
    ShrParts(x, 32 - p);
    assert s == s[..i + 1] + s[i + 1..];
    ValAppend(s[..i + 1], s[i + 1..]);
    ValSnoc(s[..i + 1]);
    assert s[..i + 1][..i] == s[..i];
    ValBound(s[i + 1..]);
    SplitLimb32(p);
    Pow2Add(32 - p, 32 * (5 - i));
    var q, l := Shr(x, 32 - p), Low(x, 32 - p);
    KeptAlgebra(hi, Pow2(p), Pow2(32 - p), q, l, w, lo);
    BoundStep(l, Pow2(32 - p), lo, w);
    ShrUnique(Val(s), 192 - (32 * i + p), hi * Pow2(p) + q, l * w + lo);
  }

  lemma SplitLimb32(p: nat)
    requires p < 32
    ensures Pow2(p) * Pow2(32 - p) == LIMB
  {
    SplitLimb(p);
  }

  lemma KeptAlgebra(hi: int, a: int, b: int, q: int, l: int, w: int, lo: int)
    ensures (hi * (a * b) + (q * b + l)) * w + lo == (hi * a + q) * (b * w) + (l * w + lo)
  {
    KeptAlgebra1(hi, a, b, q);
  }

  lemma KeptAlgebra1(hi: int, a: int, b: int, q: int)
    ensures hi * (a * b) + q * b == (hi * a + q) * b
  {
  }

  lemma RestFacts(s: seq<limb>, i: nat, p: nat)
    requires |s| == LIMBS && i < 6 && p < 32 && 32 * i + p > 0
    ensures
      var rest, unit := Rest(Val(s), 32 * i + p), Pow2(192 - (32 * i + p));
      && (HalfSet(s, i, p) <==> 2 * rest >= unit)
      && (HalfSet(s, i, p) ==> s[i] >= Pow2(31 - p))
      && (HalfSet(s, i, p) ==> (2 * rest > unit <==> AnySet(s[i := s[i] - Pow2(31 - p)], i, p)))
      && (rest != 0 <==> AnySet(s, i, p))
  {
    hide Val, Shr, Low, Pow2, Weight, Rest, AnySet;
    var x, w, lo := s[i], Weight(5 - i), Val(s[i + 1..]);
    KeptParts(s, i, p);
    HalfBit(x, p);
    ShrParts(x, 31 - p);
    RestCompare(Low(x, 31 - p), Pow2(31 - p), Shr(x, 31 - p) % 2, w, lo);
    AnySetTail(s, i, p);
    RestZero(Low(x, 32 - p), w, lo);
    if HalfSet(s, i, p) {
      var s' := s[i := x - Pow2(31 - p)];
      assert s'[i + 1..] == s[i + 1..];
      AnySetTail(s', i, p);
    }
  }

  lemma AnySetTail(s: seq<limb>, i: nat, p: nat)
    requires i < |s| && p < 32
    ensures AnySet(s, i, p) <==> Low(s[i], 32 - p) != 0 || Val(s[i + 1..]) != 0
  {
    hide Val, Low;
    var t := s[i + 1..];
    if forall j :: 0 <= j < |t| ==> t[j] == 0 {
      ValZeros(t);
      assert forall j :: i < j < |s| ==> s[j] == t[j - i - 1];
    } else {
      var j :| 0 <= j < |t| && t[j] != 0;
      ValPositive(t, j);
      assert s[i + 1 + j] != 0;
    }
  }

  lemma {:induction false} ValPositive(s: seq<nat>, j: nat)
    requires j < |s| && s[j] != 0
    ensures Val(s) > 0
  {
    if j < |s| - 1 {
      ValPositive(s[..|s| - 1], j);
    }
  }

  lemma RestZero(l: nat, w: nat, lo: nat)
    requires w > 0
    ensures l * w + lo != 0 <==> l != 0 || lo != 0
  {
    if l > 0 {
      AtLeastOne(l, w);
    }
  }

  lemma RestCompare(l: nat, h: nat, b: nat, w: nat, lo: nat)
    requires l < h && b < 2 && lo < w
    ensures b == 1 <==> 2 * ((b * h + l) * w + lo) >= 2 * h * w
    ensures b == 1 ==> (2 * ((b * h + l) * w + lo) > 2 * h * w <==> l != 0 || lo != 0)
  {
    BoundStep(l, h, lo, w);
    RestZero(l, w, lo);
    if b == 1 {
      RestAlgebra(h, l, w, lo);
    }
    MulAssoc(2, h, w);
  }

  lemma RestAlgebra(h: int, l: int, w: int, lo: int)
    ensures (1 * h + l) * w + lo == h * w + (l * w + lo)
  {
  }

  lemma LastKeptBit(s: seq<limb>, i: nat, p: nat)
    requires |s| == LIMBS && i < 6 && p < 32 && 32 * i + p > 0
    ensures TestBit(s, 32 * i + p - 1) <==> Kept(Val(s), 32 * i + p) % 2 == 1
  {
    hide Val, Shr, Low, Kept, Pow2, Weight;
    KeptParts(s, i, p);
    if p > 0 {
      DoublePow(p - 1);
      EvenPart(Val(s[..i]), Pow2(p - 1), Shr(s[i], 32 - p));
      assert (32 * i + p - 1) / 32 == i && (32 * i + p - 1) % 32 == p - 1;
    } else {
      WholeLimbBit(s, i);
    }
  }

  lemma WholeLimbBit(s: seq<limb>, i: nat)
    requires |s| == LIMBS && 0 < i < 6
    ensures TestBit(s, 32 * i - 1) <==> (Val(s[..i]) * Pow2(0) + Shr(s[i], 32)) % 2 == 1
  {
    hide Val, Shr, Low, Pow2;
    assert (32 * i - 1) / 32 == i - 1 && (32 * i - 1) % 32 == 31;
    Pow2Values();
    Pow2Zero();
    ShrUnique(s[i], 32, 0, s[i]);
    ShrUnique(s[i - 1], 0, s[i - 1], 0);
    ValSnoc(s[..i]);
    assert s[..i][..i - 1] == s[..i - 1];
    EvenPlus(Val(s[..i - 1]) * 0x8000_0000, s[i - 1]);
  }

  lemma EvenPart(hi: nat, h: nat, q: nat)
    ensures (hi * (2 * h) + q) % 2 == q % 2
  {
    assert hi * (2 * h) == 2 * (hi * h);
    EvenPlus(hi * h, q);
  }

  lemma EvenPlus(a: int, q: int)
    ensures (2 * a + q) % 2 == q % 2
  {
  }

  // Clearing the bits behind the half bit leaves the kept ones.
  lemma Cleared(x: limb, p: nat)
    requires p < 32
    ensures x >= Low(x, 31 - p) && Shr(x - Low(x, 31 - p), 32 - p) == Shr(x, 32 - p)
    ensures x - Low(x, 31 - p) + Pow2(31 - p) <= LIMB
  {
    hide Shr, Low, Pow2;
    HalfBit(x, p);
    ShrParts(x, 31 - p);
    var q, n, h := Shr(x, 32 - p), Shr(x, 31 - p), Pow2(31 - p);
    ClearedParts(n, q, p, h);
    ClearedFits(x, p);
  }

  lemma ClearedFits(x: limb, p: nat)
    requires p < 32
    ensures Shr(x, 31 - p) * Pow2(31 - p) + Pow2(31 - p) <= LIMB
  {
    hide Shr, Pow2;
    var n, h := Shr(x, 31 - p), Pow2(31 - p);
    Quotient(x, 31 - p);
    SplitLimb(31 - p);
    MulMono(n + 1, Pow2(p + 1), h);
    NextMultiple(n, h);
  }

  lemma ClearedParts(n: nat, q: nat, p: nat, h: nat)
    requires p < 32 && h == Pow2(31 - p) && Pow2(32 - p) == 2 * h && n == 2 * q + n % 2
    ensures Shr(n * h, 32 - p) == q
  {
    hide Shr, Low, Pow2;
    HalfAlgebra(q, n % 2, h, 0);
    HalfLess(n % 2, h);
    ShrUnique(n * h, 32 - p, q, n % 2 * h);
  }

  lemma HalfLess(b: nat, h: nat)
    requires b < 2 && h > 0
    ensures 0 <= b * h < 2 * h
  {
  }

  // The limb after the half bit was added, wrapped to 32 bits; it is zero only when it wraps.
  lemma Wrapped(m: seq<limb>, i: nat, x: nat)
    requires |m| == LIMBS && i < 6 && 0 < x <= LIMB && m[i] == x % LIMB && forall k :: i < k < 6 ==> m[k] == 0
    ensures Val(m) + (if m[i] == 0 then Weight(6 - i) else 0) == (Val(m[..i]) * LIMB + x) * Weight(5 - i)
  {
    hide Val, Weight;
    assert m == m[..i + 1] + m[i + 1..];
    ValAppend(m[..i + 1], m[i + 1..]);
    ValZeros(m[i + 1..]);
    ValSnoc(m[..i + 1]);
    assert m[..i + 1][..i] == m[..i];
    WeightUp(5 - i);
    if x == LIMB {
      WrapAlgebra(Val(m[..i]), LIMB, Weight(5 - i));
    } else {
      assert x % LIMB == x;
    }
  }

  lemma WrapAlgebra(v: int, b: int, w: int)
    ensures (v * b + 0) * w + w * b == (v * b + b) * w
  {
  }

  lemma UpValue(s: seq<limb>, i: nat, p: nat, v: nat, wrapped: bool)
    requires |s| == LIMBS && i < 6 && p < 32 && v < Weight(6) && s[i] >= Low(s[i], 31 - p)
    requires
      v + (if wrapped then Weight(6) else 0) ==
      (Val(s[..i]) * LIMB + (s[i] - Low(s[i], 31 - p) + Pow2(31 - p))) * Weight(5 - i)
    ensures
      var kept := Kept(Val(s), 32 * i + p);
      Kept(v, 32 * i + p) == if HalfSet(s, i, p) then (kept + 1) % Pow2(32 * i + p) else kept
  {
    hide Val, Shr, Low, Pow2, Weight, Kept;
    var hi, x, w, h, b := Val(s[..i]), s[i], Weight(5 - i), Pow2(31 - p), Shr(s[i], 31 - p) % 2;
    KeptParts(s, i, p);
    HalfBit(x, p);
    ShrParts(x, 32 - p);
    var q, bits := Shr(x, 32 - p), 32 * i + p;
    var kept, d := hi * Pow2(p) + q, Pow2(32 - p) * w;
    Pow2Add(bits, 192 - bits);
    SixWeight();
    ValBound(s);
    KeptBelow(Val(s), bits);
    if b == 1 {
      UpAlgebra(hi, Pow2(p), q, h, w, Pow2(32 - p));
      KeptNext(v, bits, kept, wrapped);
    } else {
      KeptAlgebra(hi, Pow2(p), Pow2(32 - p), q, h, w, 0);
      BoundStep(h, Pow2(32 - p), 0, w);
      KeptSame(v, bits, kept, h * w, wrapped);
    }
  }

  lemma SixWeight()
    ensures Weight(6) == Pow2(192)
  {
  }

  lemma UpAlgebra(hi: int, a: int, q: int, h: int, w: int, b: int)
    requires b == 2 * h
    ensures (hi * (a * b) + (q * b + h + h)) * w == (hi * a + q + 1) * (b * w)
  {
    KeptAlgebra(hi, a, b, q + 1, 0, w, 0);
    assert q * b + h + h == (q + 1) * b + 0;
  }

  lemma KeptBelow(v: nat, bits: nat)
    requires v < Pow2(192) && bits <= 192
    ensures Kept(v, bits) < Pow2(bits)
  {
    hide Pow2, Shr, Low;
    ShrParts(v, 192 - bits);
    Pow2Add(bits, 192 - bits);
    if Kept(v, bits) >= Pow2(bits) {
      MulMono(Pow2(bits), Kept(v, bits), Pow2(192 - bits));
    }
  }

  lemma KeptNext(v: nat, bits: nat, kept: nat, wrapped: bool)
    requires bits <= 192 && kept < Pow2(bits) && v < Pow2(192)
    requires v + (if wrapped then Pow2(192) else 0) == (kept + 1) * Pow2(192 - bits)
    ensures Kept(v, bits) == (kept + 1) % Pow2(bits)
  {
    hide Pow2, Shr, Low;
    var n, d := Pow2(bits), Pow2(192 - bits);
    Pow2Add(bits, 192 - bits);
    MulMono(kept + 1, n, d);
    if kept + 1 == n {
      assert wrapped && v == 0;
      ShrUnique(v, 192 - bits, 0, 0);
      DivUnique(kept + 1, n, 1, 0);
    } else {
      MulMono(kept + 2, n, d);
      BoundStep(kept + 1, kept + 2, 0, d);
      ShrUnique(v, 192 - bits, kept + 1, 0);
      DivUnique(kept + 1, n, 0, kept + 1);
    }
  }

  lemma KeptSame(v: nat, bits: nat, kept: nat, r: nat, wrapped: bool)
    requires bits <= 192 && kept < Pow2(bits) && r < Pow2(192 - bits)
    requires v + (if wrapped then Pow2(192) else 0) == kept * Pow2(192 - bits) + r
    ensures Kept(v, bits) == kept
  {
    hide Pow2, Shr, Low;
    Pow2Add(bits, 192 - bits);
    BoundStep(kept, Pow2(bits), 0, Pow2(192 - bits));
    MulMono(kept + 1, Pow2(bits), Pow2(192 - bits));
    NextMultiple(kept, Pow2(192 - bits));
    ShrUnique(v, 192 - bits, kept, r);
  }

  lemma ShrShr(x: nat, a: nat, b: nat)
    ensures Shr(Shr(x, a), b) == Shr(x, a + b)
  {
    hide Shr, Low, Pow2;
    ShrParts(x, a);
    ShrParts(Shr(x, a), b);
    Pow2Add(a, b);
    var q, r := Shr(Shr(x, a), b), Low(Shr(x, a), b);
    ShrShrAlgebra(q, Pow2(b), r, Pow2(a), Low(x, a));
    BoundStep(r, Pow2(b), Low(x, a), Pow2(a));
    ShrUnique(x, a + b, q, r * Pow2(a) + Low(x, a));
  }

  lemma ShrShrAlgebra(q: int, b: int, r: int, a: int, l: int)
    ensures (q * b + r) * a + l == q * (a * b) + (r * a + l)
  {
  }

  // Fewer bits are the first of more bits.
  lemma KeptOf(v: nat, a: nat, b: nat)
    requires a <= b <= 192
    ensures Kept(v, a) == Shr(Kept(v, b), b - a)
  {
    hide Shr;
    ShrShr(v, 192 - b, b - a);
  }
}
