// What the texts of floating-point constants say.

module FloatDigits {
  import opened Common
  import opened Arithmetic
  import opened Positional
  import opened FloatBinary
  import opened FloatConvert

  // ---- Exponents ----

  lemma {:induction false} DigitsAppend(a: string, b: string, acc: nat)
    ensures
      Digits(a + b, acc) ==
      match Digits(a, acc)
      case BadExponent => BadExponent
      case Exponent(x) => if x < 0 then BadExponent else Digits(b, x)
    decreases |a|
  {
    if a == [] {
      assert a + b == b;
    } else {
      assert (a + b)[1..] == a[1..] + b;
      if '0' <= a[0] <= '9' {
        DigitsAppend(a[1..], b, acc * 10 + (a[0] - '0') as int);
      } else if a[0] == '_' {
        DigitsAppend(a[1..], b, acc);
      }
    }
  }

  lemma DigitChar(c: char, x: nat)
    requires x < 10 && (c == LOWER[x] || c == UPPER[x])
    ensures '0' <= c <= '9' && (c - '0') as int == x
  {
  }

  lemma {:induction false} DigitsWritten(s: string, d: seq<nat>)
    requires Writes(s, d) && Below(d, 10)
    ensures Digits(s, 0) == Exponent(Spelled(d, 10))
  {
    if s != [] {
      var c, t := s[|s| - 1], s[..|s| - 1];
      assert s == t + [c] && [c][1..] == [];
      if c == '_' {
        DigitsWritten(t, d);
        DigitsAppend(t, [c], 0);
      } else {
        var u, x := d[..|d| - 1], d[|d| - 1];
        DigitsWritten(t, u);
        DigitsAppend(t, [c], 0);
        DigitChar(c, x);
        assert d == u + [x];
        SpelledNext(u, x, 10);
      }
    }
  }

  datatype Sign = NoSign | PlusSign | MinusSign

  function SignText(g: Sign): string {
    match g case NoSign => "" case PlusSign => "+" case MinusSign => "-"
  }

  // A number cut at max in both directions.
  function Cut(x: int, max: nat): int {
    if x > max then max else if x < -(max as int) then -(max as int) else x
  }

  function SignedValue(g: Sign, n: nat): int {
    if g.MinusSign? then -(n as int) else n
  }

  // An exponent is the signed number that its digits spell, cut at max.
  lemma ExponentWritten(g: Sign, s: string, d: seq<nat>, max: nat)
    requires Writes(s, d) && Below(d, 10)
    ensures ExponentOf(SignText(g) + s, max) == Exponent(Cut(SignedValue(g, Spelled(d, 10)), max))
  {
    hide Digits, Spelled;
    DigitsWritten(s, d);
    WrittenStart(s, d);
    var t := SignText(g) + s;
    assert g.NoSign? ==> t == s;
    assert !g.NoSign? ==> t[1..] == s;
  }

  lemma {:induction false} WrittenStart(s: string, d: seq<nat>)
    requires Writes(s, d) && Below(d, 10)
    ensures forall i :: 0 <= i < |s| ==> s[i] == '_' || '0' <= s[i] <= '9'
  {
    if s != [] {
      if s[|s| - 1] == '_' {
        WrittenStart(s[..|s| - 1], d);
      } else {
        DigitChar(s[|s| - 1], d[|d| - 1]);
        WrittenStart(s[..|s| - 1], d[..|d| - 1]);
      }
    }
  }

  // ---- Decimal constants ----

  // Digits in front of the rest of the text; after the point they also move it.
  lemma {:induction false} DecimalDigits(s: string, d: seq<nat>, rest: string, dot: bool, sig: nat, pow: int)
    requires Writes(s, d) && Below(d, 10)
    ensures sig * Power(10, |d|) >= 0
    ensures
      ReadDecimal(s + rest, dot, sig, pow) ==
      ReadDecimal(rest, dot, sig * Power(10, |d|) + Spelled(d, 10), if dot then pow - |d| else pow)
  {
    hide ExponentOf, Power, Spelled;
    MulMono(0, sig, Power(10, |d|));
    if s == [] {
      NoDigits(10);
      assert s + rest == rest;
    } else {
      var c, t := s[|s| - 1], s[..|s| - 1];
      assert s + rest == t + ([c] + rest);
      assert ([c] + rest)[0] == c && ([c] + rest)[1..] == rest;
      if c == '_' {
        DecimalDigits(t, d, [c] + rest, dot, sig, pow);
      } else {
        var u, x := d[..|d| - 1], d[|d| - 1];
        DecimalDigits(t, u, [c] + rest, dot, sig, pow);
        DigitChar(c, x);
        assert d == u + [x];
        SpelledNext(u, x, 10);
        PowerNext(10, |d|);
        MulMono(0, sig, Power(10, |u|));
        NextPlace(sig, Power(10, |u|), Spelled(u, 10), x, 10);
      }
    }
  }

  lemma NextPlace(sig: int, p: int, s: int, x: int, r: int)
    ensures (sig * p + s) * r + x == sig * (r * p) + (r * s + x)
  {
  }

  // The part behind the digits: an exponent letter, a sign and digits, or nothing.
  datatype Tail = NoTail | Tail(letter: char, sign: Sign, text: string, digits: seq<nat>)

  predicate TailOk(t: Tail, letters: string) {
    t.Tail? ==> t.letter in letters && Writes(t.text, t.digits) && forall i :: 0 <= i < |t.digits| ==> t.digits[i] < 10
  }

  function TailText(t: Tail): string {
    if t.NoTail? then "" else [t.letter] + SignText(t.sign) + t.text
  }

  function TailValue(t: Tail, max: nat): int {
    if t.NoTail? then 0 else Cut(SignedValue(t.sign, Spelled(t.digits, 10)), max)
  }

  lemma DecimalTail(t: Tail, dot: bool, sig: nat, pow: int)
    requires TailOk(t, "eE")
    ensures ReadDecimal(TailText(t), dot, sig, pow) == Number(sig, pow + TailValue(t, 5000))
  {
    hide ExponentOf, Writes, Cut;
    if t.Tail? {
      var s := TailText(t);
      assert s == [t.letter] + (SignText(t.sign) + t.text);
      assert s[1..] == SignText(t.sign) + t.text;
      ExponentWritten(t.sign, t.text, t.digits, 5000);
    }
  }

  // Main result for decimal constants: the digits before and behind the point spell the significand, and the exponent
  // counts from behind the last one.
  lemma DecimalText(a: string, da: seq<nat>, b: string, db: seq<nat>, t: Tail)
    requires Writes(a, da) && Below(da, 10) && Writes(b, db) && Below(db, 10) && TailOk(t, "eE")
    ensures
      ReadDecimal(a + ("." + (b + TailText(t))), false, 0, 0) == Number(Spelled(da + db, 10), TailValue(t, 5000) - |db|)
    ensures ReadDecimal(a + TailText(t), false, 0, 0) == Number(Spelled(da, 10), TailValue(t, 5000))
  {
    hide ExponentOf, Writes, Spelled, Power, TailText, TailValue, ReadDecimal, TailOk;
    var rest := b + TailText(t);
    NoneBefore(Power(10, |da|));
    DecimalDigits(a, da, "." + rest, false, 0, 0);
    DecimalDigits(a, da, TailText(t), false, 0, 0);
    PointNext(rest, Spelled(da, 10));
    DecimalDigits(b, db, TailText(t), true, Spelled(da, 10), 0);
    SpelledAppend(da, db, 10);
    DecimalTail(t, true, Spelled(da + db, 10), -|db|);
    DecimalTail(t, false, Spelled(da, 10), 0);
  }

  lemma NoneBefore(p: int)
    ensures 0 * p == 0
  {
  }

  lemma PointNext(rest: string, sig: nat)
    ensures ReadDecimal("." + rest, false, sig, 0) == ReadDecimal(rest, true, sig, 0)
  {
    assert ("." + rest)[1..] == rest;
  }

  // ---- Binary, octal and hexadecimal constants ----

  lemma HexChar(c: char, x: nat)
    requires x < 16 && (c == LOWER[x] || c == UPPER[x])
    ensures Hexval(c) == x && c != '.'
  {
  }

  lemma {:induction false} BinaryDigits(s: string, d: seq<nat>, bits: nat, rest: string, dot: bool, sig: nat, pow: int)
    requires Writes(s, d) && Below(d, Pow2(bits)) && 1 <= bits <= 4
    ensures sig * Power(Pow2(bits), |d|) >= 0
    ensures
      ReadBinary(s + rest, bits, dot, sig, pow) ==
      ReadBinary(rest, bits, dot, sig * Power(Pow2(bits), |d|) + Spelled(d, Pow2(bits)),
                 if dot then pow - bits * |d| else pow)
  {
    hide ExponentOf, Pow2, Hexval, Power, Spelled;
    var r := Pow2(bits);
    MulMono(0, sig, Power(r, |d|));
    if s == [] {
      NoDigits(r);
      assert s + rest == rest;
    } else {
      var c, t := s[|s| - 1], s[..|s| - 1];
      assert s + rest == t + ([c] + rest);
      assert ([c] + rest)[0] == c && ([c] + rest)[1..] == rest;
      if c == '_' {
        Underscore(bits);
        BinaryDigits(t, d, bits, [c] + rest, dot, sig, pow);
      } else {
        var u, x := d[..|d| - 1], d[|d| - 1];
        BinaryDigits(t, u, bits, [c] + rest, dot, sig, pow);
        HexChar(c, x);
        assert d == u + [x];
        SpelledNext(u, x, r);
        PowerNext(r, |d|);
        MulMono(0, sig, Power(r, |u|));
        NextPlace(sig, Power(r, |u|), Spelled(u, r), x, r);
      }
    }
  }

  lemma Underscore(bits: nat)
    requires 1 <= bits <= 4
    ensures Hexval('_') >= Pow2(bits) && Hexval('p') >= Pow2(bits) && Hexval('P') >= Pow2(bits)
  {
    assert Pow2(1) == 2 && Pow2(2) == 4 && Pow2(3) == 8 && Pow2(4) == 16;
  }

  lemma BinaryTail(t: Tail, bits: nat, dot: bool, sig: nat, pow: int)
    requires TailOk(t, "pP") && 1 <= bits <= 4
    ensures ReadBinary(TailText(t), bits, dot, sig, pow) == Number(sig, pow + TailValue(t, 20000))
  {
    hide ExponentOf, Writes, Pow2, Hexval, Cut;
    if t.Tail? {
      var s := TailText(t);
      Underscore(bits);
      assert s == [t.letter] + (SignText(t.sign) + t.text);
      assert s[1..] == SignText(t.sign) + t.text;
      ExponentWritten(t.sign, t.text, t.digits, 20000);
    }
  }

  // Main result for the other radixes: the same in base 2, 4, 8 or 16, with a binary exponent.
  lemma BinaryText(a: string, da: seq<nat>, b: string, db: seq<nat>, bits: nat, t: Tail)
    requires 1 <= bits <= 4 && Writes(a, da) && Below(da, Pow2(bits)) && Writes(b, db) && Below(db, Pow2(bits))
    requires TailOk(t, "pP")
    ensures
      ReadBinary(a + ("." + (b + TailText(t))), bits, false, 0, 0) ==
      Number(Spelled(da + db, Pow2(bits)), TailValue(t, 20000) - bits * |db|)
    ensures ReadBinary(a + TailText(t), bits, false, 0, 0) == Number(Spelled(da, Pow2(bits)), TailValue(t, 20000))
  {
    hide ExponentOf, Writes, Spelled, Power, TailText, TailValue, Pow2, Hexval, ReadBinary, TailOk;
    var rest := b + TailText(t);
    NoneBefore(Power(Pow2(bits), |da|));
    BinaryPoint(rest, bits, Spelled(da, Pow2(bits)));
    BinaryDigits(a, da, bits, "." + rest, false, 0, 0);
    BinaryDigits(a, da, bits, TailText(t), false, 0, 0);
    BinaryDigits(b, db, bits, TailText(t), true, Spelled(da, Pow2(bits)), 0);
    SpelledAppend(da, db, Pow2(bits));
    BinaryTail(t, bits, true, Spelled(da + db, Pow2(bits)), -(bits * |db|));
    BinaryTail(t, bits, false, Spelled(da, Pow2(bits)), 0);
  }

  lemma BinaryPoint(rest: string, bits: nat, sig: nat)
    ensures ReadBinary("." + rest, bits, false, sig, 0) == ReadBinary(rest, bits, true, sig, 0)
  {
    assert ("." + rest)[1..] == rest;
  }
}
