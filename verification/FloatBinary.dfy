// read_exponent and ieee_flconvert_bin: constants with a radix that is a power of two.

module FloatBinary {
  import opened Common
  import opened Arithmetic
  import opened FloatLimbs
  import opened FloatRound

  datatype Exponent = BadExponent | Exponent(value: int)

  // The digits of an exponent; underscores are ignored.
  function Digits(text: string, acc: nat): Exponent {
    if text == [] then Exponent(acc)
    else if '0' <= text[0] <= '9' then Digits(text[1..], acc * 10 + (text[0] - '0') as int)
    else if text[0] == '_' then Digits(text[1..], acc)
    else BadExponent
  }

  function Least(a: int, b: int): int {
    if a < b then a else b
  }

  // A signed exponent, cut at max in both directions.
  function ExponentOf(text: string, max: nat): Exponent {
    var signed := text != [] && (text[0] == '+' || text[0] == '-');
    var n := Digits(if signed then text[1..] else text, 0);
    if n == BadExponent then n
    else if signed && text[0] == '-' then Exponent(-Least(n.value, max))
    else Exponent(Least(n.value, max))
  }

  method ReadExponent(text: string, max: nat) returns (e: Exponent)
    ensures e == ExponentOf(text, max)
    ensures e.Exponent? ==> -(max as int) <= e.value <= max
  {
    var k, i, neg := 0, 0, false;
    ghost var exact: nat := 0;
    if text != [] && text[0] == '+' {
      k := 1;
    } else if text != [] && text[0] == '-' {
      neg := true;
      k := 1;
    }
    while k < |text|
      invariant k <= |text| && 0 <= i <= max && i == Least(exact, max)
      invariant neg <==> text != [] && text[0] == '-'
      invariant ExponentOf(text, max) ==
                var n := Digits(text[k..], exact);
                if n == BadExponent then n
                else if neg then Exponent(-Least(n.value, max)) else Exponent(Least(n.value, max))
    {
      assert text[k..][1..] == text[k + 1..];
      if '0' <= text[k] <= '9' {
        exact := exact * 10 + (text[k] - '0') as int;
        i := i * 10 + (text[k] - '0') as int;
        if i > max {
          i := max;
        }
      } else if text[k] != '_' {
        return BadExponent;
      }
      k := k + 1;
    }
    e := Exponent(if neg then -i else i);
  }

  // Any letter is taken for a digit, and so are '@' and '`', which read as 9.
  function Hexval(c: char): int {
    var v := c as int;
    if '0' <= c <= '9' then v - '0' as int
    else
      var w := (if v / 32 % 2 == 1 then v else v + 32) - 'a' as int + 10;
      if w < 0 then w + 0x1_0000_0000 else w
  }

  function HexDigit(c: char): Option<nat> {
    if '0' <= c <= '9' then Some((c - '0') as nat)
    else if 'a' <= c <= 'f' then Some((c - 'a') as nat + 10)
    else if 'A' <= c <= 'F' then Some((c - 'A') as nat + 10)
    else None
  }

  lemma HexvalExact(c: char)
    ensures (HexDigit(c) == if Hexval(c) < 16 then Some(Hexval(c)) else None) <==> c != '@' && c != '`'
    ensures Hexval('@') == Hexval('`') == 9
  {
  }

  datatype Scan = Malformed | Number(sig: nat, pow: int)

  // The number that a text stands for is sig * 2^pow: all digits in a row, and the place of the last one.
  function ReadBinary(text: string, bits: nat, dot: bool, sig: nat, pow: int): Scan {
    if text == [] then Number(sig, pow)
    else if text[0] == '.' then
      if dot then Malformed else ReadBinary(text[1..], bits, true, sig, pow)
    else if Hexval(text[0]) < Pow2(bits) then
      DigitNat(text[0]);
      ReadBinary(text[1..], bits, dot, sig * Pow2(bits) + Hexval(text[0]), if dot then pow - bits else pow)
    else if text[0] == 'p' || text[0] == 'P' then
      match ExponentOf(text[1..], 20000)
      case BadExponent => Malformed
      case Exponent(e) => Number(sig, pow + e)
    else if text[0] == '_' then ReadBinary(text[1..], bits, dot, sig, pow)
    else Malformed
  }

  lemma DigitNat(c: char)
    ensures Hexval(c) >= 0
  {
  }

  function BitLength(n: nat): nat {
    if n == 0 then 0 else BitLength(n / 2) + 1
  }

  lemma {:induction false} BitLengthBounds(n: nat)
    ensures n < Pow2(BitLength(n))
    ensures n > 0 ==> BitLength(n) > 0 && Pow2(BitLength(n) - 1) <= n
  {
    if n > 1 {
      BitLengthBounds(n / 2);
    }
  }

  lemma {:induction false} BitLengthIs(n: nat, k: nat)
    requires k > 0 && Pow2(k - 1) <= n < Pow2(k)
    ensures BitLength(n) == k
  {
    BitLengthBounds(n);
    if BitLength(n) > k {
      Pow2Monotone(k, BitLength(n) - 1);
    } else if BitLength(n) < k {
      Pow2Monotone(BitLength(n), k - 1);
    }
  }

  lemma BitLengthDigit(n: nat, b: nat, v: nat)
    requires n > 0 && v < Pow2(b) && n * Pow2(b) + v >= 0
    ensures BitLength(n * Pow2(b) + v) == BitLength(n) + b
  {
    hide Pow2, BitLength;
    BitLengthBounds(n);
    var k := BitLength(n);
    Pow2Add(k - 1, b);
    Pow2Add(k, b);
    MulMono(Pow2(k - 1), n, Pow2(b));
    BoundStep(n, Pow2(k), v, Pow2(b));
    BitLengthIs(n * Pow2(b) + v, k + b);
  }

  // The first 192 bits of a number.
  function TopBits(n: nat): nat {
    if BitLength(n) <= 192 then
      MulMono(0, n, Pow2(192 - BitLength(n)));
      n * Pow2(192 - BitLength(n))
    else Shr(n, BitLength(n) - 192)
  }

  const LOG2: seq<int> := [-1, 0, 1, 1, 2, 2, 2, 2, 3, 3, 3, 3, 3, 3, 3, 3]

  // The digits read so far fill the limbs up to bit ms + bits of limb k, and after six limbs the rest is dropped.
  predicate Placed(s: seq<limb>, k: nat, ms: int, bits: nat, sig: nat) {
    && |s| == 7 && sig > 0 && k <= 6 && 0 <= ms + bits <= 31
    && if k < 6 then
         && 32 * (k + 1) == BitLength(sig) + ms + bits
         && Val(s[..k + 1]) == sig * Pow2(ms + bits)
         && forall j :: k < j < 7 ==> s[j] == 0
       else BitLength(sig) >= 192 && Val(s[..6]) == Shr(sig, BitLength(sig) - 192)
  }

  // The first digit goes to the top of the first limb.
  method FirstDigit(mult: array<limb>, v: nat, bits: nat) returns (ms: int, l: int)
    requires mult.Length == 7 && 0 < v < 16 && 1 <= bits <= 4 && v < Pow2(bits)
    requires forall j :: 0 <= j < 7 ==> mult[j] == 0
    modifies mult
    ensures l + 1 == BitLength(v) && Placed(mult[..], 0, ms, bits, v)
  {
    hide Val, Pow2, BitLength, Shl, Or;
    l := LOG2[v];
    LogIsLength(v);
    ms := 31 - l;
    BitLengthBounds(v);
    Pow2Add(BitLength(v), ms);
    BoundStep(v, Pow2(BitLength(v)), 0, Pow2(ms));
    BitLengthAtMost(v, bits);
    Pow2Values();
    Pow2Add(bits, ms);
    FirstShift(v, ms);
    OrZero(Shl(v, ms));
    mult[0] := Or(mult[0], Shl(v, ms));
    assert mult[..1] == [mult[0]];
    ValOne(mult[0]);
    ms := ms - bits;
  }

  lemma FirstShift(v: nat, ms: nat)
    requires v * Pow2(ms) < LIMB && v * Pow2(ms) >= 0
    ensures Shl(v, ms) == v * Pow2(ms)
  {
    ShlUnique(v, ms, 0, v * Pow2(ms));
  }

  lemma BitLengthAtMost(v: nat, b: nat)
    requires v < Pow2(b)
    ensures BitLength(v) <= b
  {
    BitLengthBounds(v);
    if v > 0 {
      Pow2Less(BitLength(v) - 1, b);
    }
  }

  lemma LogIsLength(v: nat)
    requires 0 < v < 16
    ensures LOG2[v] + 1 == BitLength(v)
  {
    Pow2Values();
    var k := LOG2[v];
    assert Pow2(0) == 1 && Pow2(1) == 2 && Pow2(2) == 4 && Pow2(3) == 8 && Pow2(4) == 16;
    BitLengthIs(v, k + 1);
  }

  // The state between the two halves of a digit: ms bits stay free once the low half is put into limb k.
  predicate Ready(s: seq<limb>, k: nat, ms: int, bits: nat, sig: nat, v: nat) {
    && |s| == 7 && sig > 0 && k <= 6 && 0 <= ms <= 31
    && Or(s[k], Shl(v, ms)) < LIMB
    && if k < 6 then
         && 32 * (k + 1) == BitLength(sig) + bits + ms
         && Or(s[k], Shl(v, ms)) == s[k] + Shl(v, ms)
         && Val(s[..k + 1]) + Shl(v, ms) == (sig * Pow2(bits) + v) * Pow2(ms)
         && forall j :: k < j < 7 ==> s[j] == 0
       else
         && BitLength(sig) + bits >= 192
         && Val(s[..6]) == Shr(sig * Pow2(bits) + v, BitLength(sig) + bits - 192)
  }

  // A further digit goes below the bits in use, into one limb or across two.
  method NextDigit(mult: array<limb>, k: nat, ms: int, v: nat, bits: nat, ghost sig: nat) returns (k': nat, ms': int)
    requires mult.Length == 7 && 1 <= bits <= 4 && v < Pow2(bits) && Placed(mult[..], k, ms, bits, sig)
    modifies mult
    ensures sig * Pow2(bits) + v > 0 && Placed(mult[..], k', ms', bits, sig * Pow2(bits) + v)
  {
    hide Val, Shl, Shr, Low, Pow2, Or, BitLength, Ready, Placed;
    PlacedRange(mult[..], k, ms, bits, sig);
    if ms < 0 {
      k' := HighHalf(mult, k, ms, v, bits, sig);
      ms' := ms + 32;
    } else {
      InOneLimb(mult[..], k, ms, bits, sig, v);
      k', ms' := k, ms;
    }
    LowHalf(mult, k', ms', v, bits, sig);
    ms' := ms' - bits;
  }

  lemma PlacedRange(s: seq<limb>, k: nat, ms: int, bits: nat, sig: nat)
    requires Placed(s, k, ms, bits, sig)
    ensures 0 <= ms + bits <= 31 && sig > 0 && k <= 6
  {
  }

  method HighHalf(mult: array<limb>, k: nat, ms: int, v: nat, bits: nat, ghost sig: nat) returns (k': nat)
    requires mult.Length == 7 && 1 <= bits <= 4 && v < Pow2(bits) && ms < 0 && Placed(mult[..], k, ms, bits, sig)
    modifies mult
    ensures Ready(mult[..], k', ms + 32, bits, sig, v)
  {
    hide Val, Shl, Shr, Low, Pow2, Or, BitLength, Ready;
    ghost var s := mult[..];
    DigitIsLimb(v, bits);
    OrFits(s[k], v, -ms);
    mult[k] := Or(mult[k], Shr(v, -ms));
    assert mult[..k] == s[..k];
    k' := k + 1;
    if k' > 6 {
      k' := 6;
      assert mult[..6] == s[..6];
      GuardReady(s, mult[..], ms + 32, bits, sig, v);
    } else {
      AcrossReady(s, mult[..], k, ms, bits, sig, v);
    }
  }

  method LowHalf(mult: array<limb>, k: nat, ms: int, v: nat, bits: nat, ghost sig: nat)
    requires mult.Length == 7 && 1 <= bits <= 4 && v < Pow2(bits) && Ready(mult[..], k, ms, bits, sig, v)
    modifies mult
    ensures sig * Pow2(bits) + v > 0 && Placed(mult[..], k, ms - bits, bits, sig * Pow2(bits) + v)
  {
    hide Val, Shl, Shr, Low, Pow2, Or, BitLength;
    ghost var s := mult[..];
    NextSig(sig, bits, v);
    mult[k] := Or(mult[k], Shl(v, ms));
    assert mult[..k] == s[..k];
    if k < 6 {
      ValSnoc(s[..k + 1]);
      ValSnoc(mult[..k + 1]);
      assert s[..k + 1][..k] == s[..k] && mult[..k + 1][..k] == s[..k];
    }
  }

  lemma DigitIsLimb(v: nat, bits: nat)
    requires v < Pow2(bits) && bits <= 4
    ensures v < 16
  {
    Pow2Monotone(bits, 4);
    assert Pow2(0) == 1 && Pow2(1) == 2 && Pow2(2) == 4 && Pow2(3) == 8 && Pow2(4) == 16;
  }

  lemma OrFits(x: limb, v: limb, n: nat)
    ensures Or(x, Shr(v, n)) < LIMB && Or(x, Shl(v, n)) < LIMB
  {
    hide Pow2, Shr, Low, Or;
    Pow2Values();
    ShrParts(v, n);
    AtMostItself(Shr(v, n), Pow2(n));
    OrBound(x, Shr(v, n), 32);
    ShlLimb(v, n);
    OrBound(x, Shl(v, n), 32);
  }

  lemma ShlLimb(v: nat, n: nat)
    ensures Shl(v, n) < LIMB
  {
  }

  lemma AtMostItself(q: nat, p: nat)
    requires p > 0
    ensures q <= q * p
  {
    MulMono(1, p, q);
  }

  // All bits of limb k below the ones in use are free.
  lemma FreeBits(s: seq<limb>, k: nat, n: nat, sig: nat) returns (c: nat)
    requires k < |s| && n <= 32 && Val(s[..k + 1]) == sig * Pow2(n)
    ensures s[k] == c * Pow2(n)
  {
    hide Val, Pow2;
    ValSnoc(s[..k + 1]);
    assert s[..k + 1][..k] == s[..k];
    Pow2Values();
    Pow2Add(n, 32 - n);
    var a := Val(s[..k]) * Pow2(32 - n);
    FreeAlgebra(Val(s[..k]), Pow2(32 - n), Pow2(n), sig);
    if sig < a {
      MulMono(sig + 1, a, Pow2(n));
      NextMultiple(sig, Pow2(n));
    }
    c := sig - a;
    Subtract(sig, a, Pow2(n));
  }

  lemma FreeAlgebra(v: int, w: int, p: int, sig: int)
    ensures v * (p * w) == v * w * p
  {
  }

  lemma InOneLimb(s: seq<limb>, k: nat, ms: int, bits: nat, sig: nat, v: nat)
    requires 1 <= bits <= 4 && v < Pow2(bits) && ms >= 0 && Placed(s, k, ms, bits, sig)
    ensures Ready(s, k, ms, bits, sig, v)
  {
    hide Val, Shl, Shr, Low, Pow2, Or, BitLength;
    DigitIsLimb(v, bits);
    OrFits(s[k], v, ms);
    if k == 6 {
      GuardShift(sig, bits, v);
    } else {
      var c := FreeBits(s, k, ms + bits, sig);
      Pow2Add(bits, ms);
      MulMono(0, v, Pow2(ms));
      Strict(v, Pow2(bits), Pow2(ms));
      Pow2Monotone(bits + ms, 32);
      Pow2Values();
      FirstShift(v, ms);
      OrDisjoint(c, v * Pow2(ms), ms + bits);
      PlaceAlgebra(sig, Pow2(bits), Pow2(ms), v);
    }
  }

  lemma PlaceAlgebra(sig: int, b: int, m: int, v: int)
    ensures sig * (b * m) + v * m == (sig * b + v) * m
  {
  }

  lemma GuardShift(sig: nat, bits: nat, v: nat)
    requires v < Pow2(bits) && sig > 0 && BitLength(sig) >= 192
    ensures sig * Pow2(bits) + v > 0
    ensures Shr(sig * Pow2(bits) + v, BitLength(sig) + bits - 192) == Shr(sig, BitLength(sig) - 192)
  {
    hide Shr, Low, Pow2, BitLength;
    NextSig(sig, bits, v);
    ShrUnique(sig * Pow2(bits) + v, bits, sig, v);
    ShrShr(sig * Pow2(bits) + v, bits, BitLength(sig) - 192);
  }

  lemma GuardReady(s: seq<limb>, t: seq<limb>, ms: int, bits: nat, sig: nat, v: nat)
    requires 1 <= bits <= 4 && v < Pow2(bits) && 0 <= ms <= 31 && Placed(s, 6, ms - 32, bits, sig)
    requires |t| == 7 && t[..6] == s[..6]
    ensures Ready(t, 6, ms, bits, sig, v)
  {
    hide Val, Shl, Shr, Low, Pow2, Or, BitLength;
    DigitIsLimb(v, bits);
    OrFits(t[6], v, ms);
    GuardShift(sig, bits, v);
  }

  // The high half of a digit fills limb k, the low half is to start the next one.
  lemma AcrossReady(s: seq<limb>, t: seq<limb>, k: nat, ms: int, bits: nat, sig: nat, v: nat)
    requires 1 <= bits <= 4 && v < Pow2(bits) && ms < 0 && k < 6 && Placed(s, k, ms, bits, sig)
    requires |t| == 7 && t[..k] == s[..k] && t[k] == Or(s[k], Shr(v, -ms)) && t[k + 1..] == s[k + 1..]
    ensures Ready(t, k + 1, ms + 32, bits, sig, v)
  {
    hide Val, Shl, Shr, Low, Pow2, Or, BitLength;
    var n := -ms;
    DigitIsLimb(v, bits);
    assert forall j :: k < j < 7 ==> t[j] == t[k + 1..][j - k - 1];
    OrFits(t[k + 1], v, ms + 32);
    NextSig(sig, bits, v);
    ShrParts(v, n);
    HighValue(s, t, k, ms, bits, sig, v);
    Pow2Add(bits - n, n);
    AcrossAlgebra(sig, Pow2(bits - n), Pow2(n), Shr(v, n), Low(v, n));
    if k == 5 {
      ShrUnique(sig * Pow2(bits) + v, n, sig * Pow2(bits - n) + Shr(v, n), Low(v, n));
    } else {
      ValSnoc(t[..k + 2]);
      assert t[..k + 2][..k + 1] == t[..k + 1];
      Remainder(v, n);
      SplitLimb(n);
      PlaceAlgebra(sig * Pow2(bits - n) + Shr(v, n), Pow2(n), Pow2(32 - n), Low(v, n));
      OrZero(Shl(v, ms + 32));
    }
  }

  lemma OrZero(y: nat)
    ensures Or(0, y) == y
  {
  }

  lemma AcrossAlgebra(sig: int, a: int, p: int, h: int, l: int)
    ensures sig * (a * p) + (h * p + l) == (sig * a + h) * p + l
  {
  }

  lemma HighValue(s: seq<limb>, t: seq<limb>, k: nat, ms: int, bits: nat, sig: nat, v: nat)
    requires 1 <= bits <= 4 && v < Pow2(bits) && ms < 0 && k < 6 && Placed(s, k, ms, bits, sig)
    requires |t| == 7 && t[..k] == s[..k] && t[k] == Or(s[k], Shr(v, -ms))
    ensures Val(t[..k + 1]) == sig * Pow2(bits + ms) + Shr(v, -ms)
  {
    hide Val, Shl, Shr, Low, Pow2, Or, BitLength;
    var n := -ms;
    var c := FreeBits(s, k, ms + bits, sig);
    ShrBelow(v, bits, n);
    OrDisjoint(c, Shr(v, n), ms + bits);
    ValSnoc(s[..k + 1]);
    ValSnoc(t[..k + 1]);
    assert s[..k + 1][..k] == s[..k] && t[..k + 1][..k] == s[..k];
  }

  lemma ShrBelow(v: nat, b: nat, n: nat)
    requires v < Pow2(b) && n <= b
    ensures Shr(v, n) < Pow2(b - n)
  {
    hide Shr, Low, Pow2;
    ShrParts(v, n);
    Pow2Add(b - n, n);
    if Shr(v, n) >= Pow2(b - n) {
      MulMono(Pow2(b - n), Shr(v, n), Pow2(n));
    }
  }

  lemma NextSig(sig: nat, bits: nat, v: nat)
    requires sig > 0 && v < Pow2(bits)
    ensures sig * Pow2(bits) + v > 0 && BitLength(sig * Pow2(bits) + v) == BitLength(sig) + bits
  {
    AtLeastOne(sig, Pow2(bits));
    BitLengthDigit(sig, bits, v);
  }

  lemma PlacedTop(s: seq<limb>, k: nat, ms: int, bits: nat, sig: nat)
    requires Placed(s, k, ms, bits, sig)
    ensures Val(s[..6]) == TopBits(sig)
  {
    hide Val, Shl, Shr, Low, Pow2, Or, BitLength;
    var n := BitLength(sig);
    if k < 6 {
      assert s[..6] == s[..k + 1] + s[k + 1..6];
      ValAppend(s[..k + 1], s[k + 1..6]);
      ValZeros(s[k + 1..6]);
      Pow2Add(ms + bits, 32 * (5 - k));
      MulAssoc(sig, Pow2(ms + bits), Weight(5 - k));
    } else if n == 192 {
      Pow2Zero();
      ShrUnique(sig, 0, sig, 0);
    }
  }

  lemma ZeroLength()
    ensures BitLength(0) == 0
  {
  }

  lemma ZeroTop()
    ensures TopBits(0) == 0
  {
  }

  lemma NextLength(sig: nat, bits: nat, v: nat)
    requires v < Pow2(bits)
    ensures sig * Pow2(bits) + v >= 0
    ensures sig * Pow2(bits) + v > 0 <==> sig > 0 || v > 0
    ensures sig > 0 ==> BitLength(sig * Pow2(bits) + v) == BitLength(sig) + bits
    ensures sig == 0 ==> sig * Pow2(bits) + v == v
  {
    if sig > 0 {
      NextSig(sig, bits, v);
    }
  }

  // One character of ReadBinary.
  lemma ReadStep(text: string, i: nat, bits: nat, dot: bool, sig: nat, pow: int)
    requires i < |text|
    ensures
      var c, rest := text[i], text[i + 1..];
      ReadBinary(text[i..], bits, dot, sig, pow) ==
      if c == '.' then
        if dot then Malformed else ReadBinary(rest, bits, true, sig, pow)
      else if Hexval(c) < Pow2(bits) then
        DigitNat(c);
        ReadBinary(rest, bits, dot, sig * Pow2(bits) + Hexval(c), if dot then pow - bits else pow)
      else if c == 'p' || c == 'P' then
        match ExponentOf(rest, 20000)
        case BadExponent => Malformed
        case Exponent(e) => Number(sig, pow + e)
      else if c == '_' then ReadBinary(rest, bits, dot, sig, pow)
      else Malformed
  {
    assert text[i..][1..] == text[i + 1..];
  }

  // The text is accepted exactly when it reads as a number; the mantissa then holds the first 192 bits of its
  // significand, and the exponent places them.
  method FlconvertBin(text: string, bits: nat, mant: array<limb>) returns (ok: bool, exponent: int)
    requires mant.Length == LIMBS && 1 <= bits <= 4
    modifies mant
    ensures ok <==> ReadBinary(text, bits, false, 0, 0).Number?
    ensures ok ==>
      var n := ReadBinary(text, bits, false, 0, 0);
      && Val(mant[..]) == TopBits(n.sig)
      && exponent == if n.sig == 0 then 0 else BitLength(n.sig) + n.pow
  {
    hide Val, Shl, Shr, Low, Pow2, Or, BitLength, Placed, Hexval, ExponentOf, TopBits;
    var mult := new limb[7](_ => 0);
    var twopwr, ms, k, i := 0, 0, 0, 0;
    var seendot, seendigit := false, false;
    ghost var sig: nat, pow: int := 0, 0;
    ghost var whole := ReadBinary(text, bits, false, 0, 0);
    assert text[0..] == text;
    ZeroLength();
    while i < |text|
      invariant i <= |text| && fresh(mult) && mult.Length == 7
      invariant whole == ReadBinary(text[i..], bits, seendot, sig, pow)
      invariant seendigit <==> sig > 0
      invariant twopwr == BitLength(sig) + pow
      invariant
        if seendigit then Placed(mult[..], k, ms, bits, sig) else k == 0 && forall j :: 0 <= j < 7 ==> mult[j] == 0
    {
      var c := text[i];
      ReadStep(text, i, bits, seendot, sig, pow);
      DigitNat(c);
      i := i + 1;
      if c == '.' {
        if !seendot {
          seendot := true;
        } else {
          return false, 0;
        }
      } else if Hexval(c) < Pow2(bits) {
        var v: nat := Hexval(c);
        DigitIsLimb(v, bits);
        NextLength(sig, bits, v);
        if !seendigit && v != 0 {
          var l: int;
          seendigit := true;
          ms, l := FirstDigit(mult, v, bits);
          twopwr := twopwr + l + 1 - bits;
        } else if seendigit {
          k, ms := NextDigit(mult, k, ms, v, bits, sig);
        }
        if seendigit {
          if !seendot {
            twopwr := twopwr + bits;
          }
        } else if seendot {
          twopwr := twopwr - bits;
        }
        sig, pow := sig * Pow2(bits) + v, if seendot then pow - bits else pow;
      } else if c == 'p' || c == 'P' {
        var e := ReadExponent(text[i..], 20000);
        if e == BadExponent {
          return false, 0;
        }
        twopwr := twopwr + e.value;
        pow := pow + e.value;
        break;
      } else if c != '_' {
        return false, 0;
      }
    }
    assert i == |text| ==> text[i..] == [];
    assert whole == Number(sig, pow);
    ZeroTop();
    if !seendigit {
      ClearTail(mant, 0);
      ValZeros(mant[..]);
      exponent := 0;
    } else {
      ghost var s := mult[..];
      PlacedTop(s, k, ms, bits, sig);
      for j := 0 to LIMBS
        invariant mult[..] == s && forall n :: 0 <= n < j ==> mant[n] == s[n]
      {
        mant[j] := mult[j];
      }
      assert mant[..] == s[..6];
      exponent := twopwr;
    }
    ok := true;
  }
}
