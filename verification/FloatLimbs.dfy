// Multiprecision numbers of 32-bit limbs, most significant first. A sequence of limbs stands for the number
// that they spell in base 2^32; splitting, updating and extending a sequence is described on that number, and
// a limb is never above 2^32 - 1, while the 64-bit accumulators of the products hold more than one limb.

module FloatLimbs {
  import opened Arithmetic

  const LIMB: nat := 0x1_0000_0000
  const LIMBS: nat := 6

  type limb = x: nat | x < 0x1_0000_0000
  type limb2 = x: nat | x < 0x1_0000_0000_0000_0000

  lemma Pow2Values()
    ensures Pow2(1) == 2 && Pow2(8) == 0x100 && Pow2(16) == 0x1_0000 && Pow2(30) == 0x4000_0000
    ensures Pow2(31) == 0x8000_0000 && Pow2(32) == LIMB
  {
    Pow2Add(8, 8);
    Pow2Add(16, 8);
    Pow2Add(24, 6);
    Pow2Add(24, 7);
    Pow2Add(24, 8);
    assert Pow2(6) == 0x40 && Pow2(7) == 0x80;
  }

  // The number that limbs stand for; limbs need not be below 2^32.
  function Val(s: seq<nat>): nat {
    if s == [] then 0 else Val(s[..|s| - 1]) * LIMB + s[|s| - 1]
  }

  // Weight of the last limb but n.
  function Weight(n: nat): (r: nat)
    ensures r > 0
  {
    Pow2(32 * n)
  }

  lemma WeightUp(n: nat)
    ensures Weight(n + 1) == Weight(n) * LIMB
  {
    Pow2Values();
    Pow2Add(32 * n, 32);
  }

  lemma WeightAdd(a: nat, b: nat)
    ensures Weight(a + b) == Weight(a) * Weight(b)
  {
    Pow2Add(32 * a, 32 * b);
  }

  lemma {:induction false} ValAppend(a: seq<nat>, b: seq<nat>)
    ensures Val(a + b) == Val(a) * Weight(|b|) + Val(b)
    decreases |b|
  {
    if b == [] {
      assert a + b == a;
    } else {
      var c := b[..|b| - 1];
      assert (a + b)[..|a + b| - 1] == a + c;
      ValAppend(a, c);
      WeightUp(|c|);
      Carry(Val(a), Weight(|c|), Val(c), LIMB);
    }
  }

  lemma Carry(a: int, w: int, c: int, k: int)
    ensures (a * w + c) * k == a * (w * k) + c * k
  {
  }

  lemma ValUpdate(s: seq<nat>, k: nat, x: nat)
    requires k < |s|
    ensures Val(s[k := x]) == Val(s) + (x - s[k]) * Weight(|s| - 1 - k)
  {
    var a, b := s[..k], s[k + 1..];
    assert s == a + ([s[k]] + b);
    assert s[k := x] == a + ([x] + b);
    ValAppend(a, [s[k]] + b);
    ValAppend(a, [x] + b);
    ValAppend([s[k]], b);
    ValAppend([x], b);
    ValOne(x);
    ValOne(s[k]);
    Subtract(x, s[k], Weight(|b|));
  }

  lemma ValSnoc(s: seq<nat>)
    requires s != []
    ensures Val(s) == Val(s[..|s| - 1]) * LIMB + s[|s| - 1]
  {
  }

  lemma ValOne(x: nat)
    ensures Val([x]) == x
  {
    assert [x][..0] == [];
  }

  lemma {:induction false} ValBound(s: seq<nat>)
    requires forall i :: 0 <= i < |s| ==> s[i] < LIMB
    ensures Val(s) < Weight(|s|)
  {
    if s != [] {
      var c := s[..|s| - 1];
      ValBound(c);
      WeightUp(|c|);
      BoundStep(Val(c), Weight(|c|), s[|s| - 1], LIMB);
    }
  }

  lemma ValFirst(s: seq<nat>)
    requires s != []
    ensures Val(s) == s[0] * Weight(|s| - 1) + Val(s[1..])
  {
    assert s == [s[0]] + s[1..];
    ValAppend([s[0]], s[1..]);
    ValOne(s[0]);
  }

  lemma {:induction false} ValZeros(s: seq<nat>)
    requires forall i :: 0 <= i < |s| ==> s[i] == 0
    ensures Val(s) == 0
  {
    if s != [] {
      ValZeros(s[..|s| - 1]);
    }
  }

  // Division by a weight drops limbs.
  lemma ValHigh(a: seq<nat>, b: seq<nat>)
    requires forall i :: 0 <= i < |b| ==> b[i] < LIMB
    ensures Val(a + b) / Weight(|b|) == Val(a) && Val(a + b) % Weight(|b|) == Val(b)
  {
    ValAppend(a, b);
    ValBound(b);
    DivUnique(Val(a + b), Weight(|b|), Val(a), Val(b));
  }

}
