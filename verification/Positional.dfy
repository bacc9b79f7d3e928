// Digits and the numbers they spell.

module Positional {
  import opened Arithmetic

  // radix^n
  function Power(radix: nat, n: nat): (r: nat)
    ensures radix > 0 ==> r > 0
  {
    if n == 0 then 1
    else
      MulMono(0, radix, Power(radix, n - 1));
      if radix > 0 then AtLeastOne(radix, Power(radix, n - 1)); radix * Power(radix, n - 1)
      else radix * Power(radix, n - 1)
  }

  // Every digit times the power of its place: d[0] r^(n-1) + d[1] r^(n-2) + ... + d[n-1].
  function Spelled(d: seq<nat>, radix: nat): nat {
    if d == [] then 0
    else
      MulMono(0, d[0], Power(radix, |d| - 1));
      d[0] * Power(radix, |d| - 1) + Spelled(d[1..], radix)
  }

  lemma NoDigits(radix: nat)
    ensures Power(radix, 0) == 1 && Spelled([], radix) == 0
  {
  }

  lemma PowerNext(radix: nat, n: nat)
    requires n > 0
    ensures Power(radix, n) == radix * Power(radix, n - 1)
  {
  }

  // One more digit behind the others moves them up by one place.
  lemma {:induction false} SpelledNext(d: seq<nat>, x: nat, radix: nat)
    ensures radix * Spelled(d, radix) >= 0
    ensures Spelled(d + [x], radix) == radix * Spelled(d, radix) + x
  {
    MulMono(0, radix, Spelled(d, radix));
    if d == [] {
      assert (d + [x])[1..] == [];
      assert Power(radix, 0) == 1;
    } else {
      assert (d + [x])[1..] == d[1..] + [x];
      SpelledNext(d[1..], x, radix);
      Up(d[0], Power(radix, |d| - 1), radix, Spelled(d[1..], radix));
    }
  }

  // Digits behind others move them up by as many places.
  lemma {:induction false} SpelledAppend(a: seq<nat>, b: seq<nat>, radix: nat)
    ensures Spelled(a, radix) * Power(radix, |b|) >= 0
    ensures Spelled(a + b, radix) == Spelled(a, radix) * Power(radix, |b|) + Spelled(b, radix)
    decreases |b|
  {
    MulMono(0, Spelled(a, radix), Power(radix, |b|));
    if b == [] {
      assert a + b == a;
      assert Power(radix, 0) == 1;
    } else {
      var c, x := b[..|b| - 1], b[|b| - 1];
      assert b == c + [x] && a + b == (a + c) + [x];
      SpelledAppend(a, c, radix);
      SpelledNext(a + c, x, radix);
      SpelledNext(c, x, radix);
      UpBoth(Spelled(a, radix), Power(radix, |c|), radix, Spelled(c, radix));
    }
  }

  lemma UpBoth(a: int, p: int, r: int, s: int)
    ensures r * (a * p + s) == a * (r * p) + r * s
  {
  }

  lemma Up(a: nat, p: nat, r: nat, s: nat)
    ensures a * (r * p) + (r * s) == r * (a * p + s)
  {
  }

  const LOWER: string := "0123456789abcdef"
  const UPPER: string := "0123456789ABCDEF"

  // s writes the digits d, in small or capital letters, with underscores anywhere.
  predicate Writes(s: string, d: seq<nat>) {
    if s == [] then d == []
    else
      var c, t := s[|s| - 1], s[..|s| - 1];
      if c == '_' then Writes(t, d)
      else d != [] && d[|d| - 1] < 16 && (c == LOWER[d[|d| - 1]] || c == UPPER[d[|d| - 1]]) && Writes(t, d[..|d| - 1])
  }

  ghost predicate Below(d: seq<nat>, radix: nat) {
    forall i :: 0 <= i < |d| ==> d[i] < radix
  }
}
