// readnum: numbers in four radices, modulo 2^64.

module ReadNum {
  import opened Common
  import opened Arithmetic

  const TWO_TO_64: nat := 0x1_0000_0000_0000_0000

  predicate IsSpace(c: char) {
    c == ' ' || (9 <= c as int <= 13 && c != '\n')
  }

  predicate IsNumChar(c: char) {
    '0' <= c <= '9' || 'a' <= c <= 'z' || 'A' <= c <= 'Z' || c == '$' || c == '_'
  }

  function RadixLetter(c: char): nat {
    if c in "bByY" then 2
    else if c in "oOqQ" then 8
    else if c in "hHxX" then 16
    else if c in "dDtT" then 10
    else 0
  }

  // The value of a digit, letters counting on from 10; 36 and more for what is no digit.
  function NumValue(c: char): nat {
    if '0' <= c <= '9' then (c - '0') as nat
    else if 'a' <= c <= 'z' then (c - 'a') as nat + 10
    else if 'A' <= c <= 'Z' then (c - 'A') as nat + 10
    else 36
  }

  // How many characters at the front satisfy a test.
  function Spaces(s: string): (n: nat)
    ensures n <= |s|
  {
    if s == [] || !IsSpace(s[0]) then 0 else 1 + Spaces(s[1..])
  }

  function NumChars(s: string): (n: nat)
    ensures n <= |s|
  {
    if s == [] || !IsNumChar(s[0]) then 0 else 1 + NumChars(s[1..])
  }

  // The exact value of digits in a radix; underscores are ignored.
  function Value(s: string, radix: nat): Option<nat> {
    if s == [] then Some(0)
    else
      var v := Value(s[..|s| - 1], radix);
      var c := s[|s| - 1];
      if v == None || c == '_' then v
      else if NumValue(c) >= radix then None
      else
        MulMono(0, radix, v.value);
        Some(radix * v.value + NumValue(c))
  }

  datatype Digits = Digits(radix: nat, text: string)

  // The radix that a prefix or a suffix gives, the greater one if there are both; without one, or with two equal
  // ones, the number is decimal and keeps the letters.
  function Split(s: string): (d: Digits)
    ensures d.radix in {2, 8, 10, 16}
  {
    var plen := if |s| > 2 && s[0] == '0' && RadixLetter(s[1]) != 0 then 2 else if |s| > 1 && s[0] == '$' then 1 else 0;
    var pradix := if plen == 2 then RadixLetter(s[1]) else if plen == 1 then 16 else 0;
    var sradix := if |s| > 1 then RadixLetter(s[|s| - 1]) else 0;
    if pradix > sradix then Digits(pradix, s[plen..])
    else if sradix > pradix then Digits(sradix, s[..|s| - 1])
    else Digits(10, s)
  }

  datatype Number = Number(neg: bool, value: nat)

  function Parse(str: string): Option<Number> {
    var s := str[Spaces(str)..];
    var neg := s != [] && s[0] == '-';
    var t := if neg then s[1..] else s;
    var n := NumChars(t);
    if n == 0 then None
    else
      var d := Split(t[..n]);
      match Value(d.text, d.radix)
      case None => None
      case Some(v) => Some(Number(neg, v))
  }

  // sign * value modulo 2^64.
  function Wrapped(n: Number): (r: nat)
    ensures r < TWO_TO_64 && (r - (if n.neg then 0 - n.value else n.value)) % TWO_TO_64 == 0
  {
    var v := n.value % TWO_TO_64;
    if n.neg && v > 0 then TWO_TO_64 - v else v
  }

  method FindStart(str: string) returns (r: nat)
    ensures r == Spaces(str)
  {
    r := 0;
    assert str[0..] == str;
    while r < |str| && IsSpace(str[r])
      invariant r <= |str| && Spaces(str) == r + Spaces(str[r..])
    {
      assert str[r..][1..] == str[r + 1..];
      r := r + 1;
    }
  }

  method FindEnd(str: string, r: nat) returns (q: nat)
    requires r <= |str|
    ensures q == r + NumChars(str[r..]) && q <= |str|
  {
    q := r;
    while q < |str| && IsNumChar(str[q])
      invariant r <= q <= |str| && NumChars(str[r..]) == q - r + NumChars(str[q..])
    {
      assert str[q..][1..] == str[q + 1..];
      q := q + 1;
    }
  }

  // The part of s that holds the digits, and their radix.
  method FindRadix(s: string) returns (radix: nat, from: nat, end: nat)
    requires s != []
    ensures from <= end <= |s| && Split(s) == Digits(radix, s[from..end])
  {
    var pradix, sradix, plen, slen := 0, 0, 0, 0;
    if |s| > 2 && s[0] == '0' && RadixLetter(s[1]) != 0 {
      pradix, plen := RadixLetter(s[1]), 2;
    } else if |s| > 1 && s[0] == '$' {
      pradix, plen := 16, 1;
    }
    if |s| > 1 && RadixLetter(s[|s| - 1]) != 0 {
      sradix, slen := RadixLetter(s[|s| - 1]), 1;
    }
    radix, from, end := 10, 0, |s|;
    if pradix > sradix {
      radix, from := pradix, plen;
    } else if sradix > pradix {
      radix, end := sradix, |s| - slen;
    } else {
      assert s[0..|s|] == s;
    }
  }

  lemma Slice(s: string, a: nat, b: nat)
    requires a <= b <= |s|
    ensures s[a..b] == s[a..][..b - a]
  {
  }

  // Accepts exactly the numerals of Parse. The result wraps; the warning says exactly when it does.
  method Readnum(str: string) returns (error: bool, result: nat, warn: bool)
    ensures error <==> Parse(str) == None
    ensures error ==> result == 0 && !warn
    ensures !error ==> result == Wrapped(Parse(str).value) && (warn <==> Parse(str).value.value >= TWO_TO_64)
  {
    hide Value, Spaces, NumChars, Split;
    var r := FindStart(str);
    var neg := false;
    ghost var s := str[r..];
    if r < |str| && str[r] == '-' {
      r := r + 1;
      neg := true;
    }
    assert str[r..] == if neg then s[1..] else s;
    var q := FindEnd(str, r);
    Slice(str, r, q);
    if q == r {
      return true, 0, false;
    }
    var num := str[r..q];
    var radix, from, end := FindRadix(num);
    var ok;
    ok, result, warn := Accumulate(num[from..end], radix);
    if !ok {
      return true, 0, false;
    }
    error := false;
    result := if neg then (TWO_TO_64 - result) % TWO_TO_64 else result;
  }

  // The digit loop. checklimit is 2^64 / radix, and last the first digit that is too much behind it.
  method Accumulate(text: string, radix: nat) returns (ok: bool, result: nat, warn: bool)
    requires radix in {2, 8, 10, 16}
    ensures ok <==> Value(text, radix).Some?
    ensures ok ==>
      && result == Value(text, radix).value % TWO_TO_64
      && (warn <==> Value(text, radix).value >= TWO_TO_64)
  {
    hide Value;
    var checklimit := 0x8000_0000_0000_0000 / (radix / 2);
    var last := if radix == 10 then 6 else 0;
    result, warn := 0, false;
    ghost var exact: nat := 0;
    assert text[..0] == [];
    ValueEmpty(radix);
    for i := 0 to |text|
      invariant Value(text[..i], radix) == Some(exact)
      invariant result == exact % TWO_TO_64 && (warn <==> exact >= TWO_TO_64)
    {
      ValueStep(text, i, radix, exact);
      if text[i] != '_' {
        if text[i] < '0' || ('9' < text[i] < 'A') || NumValue(text[i]) >= radix {
          ValueNone(text, i + 1, radix);
          return false, 0, false;
        }
        var digit := NumValue(text[i]);
        Overflow(exact, radix, digit, result);
        if result > checklimit || (result == checklimit && digit >= last) {
          warn := true;
        }
        result := (radix * result + digit) % TWO_TO_64;
        exact := radix * exact + digit;
      }
    }
    assert text[..|text|] == text;
    ok := true;
  }

  lemma ValueEmpty(radix: nat)
    ensures Value([], radix) == Some(0)
  {
  }

  lemma ValueStep(text: string, i: nat, radix: nat, exact: nat)
    requires i < |text| && Value(text[..i], radix) == Some(exact)
    ensures radix * exact >= 0
    ensures
      Value(text[..i + 1], radix) ==
      if text[i] == '_' then Some(exact)
      else if NumValue(text[i]) >= radix then None else Some(radix * exact + NumValue(text[i]))
  {
    MulMono(0, radix, exact);
    assert text[..i + 1][..i] == text[..i];
  }

  lemma {:induction false} ValueNone(text: string, i: nat, radix: nat)
    requires i <= |text| && Value(text[..i], radix) == None
    ensures Value(text, radix) == None
    decreases |text|
  {
    if i < |text| {
      var u := text[..|text| - 1];
      assert u[..i] == text[..i];
      ValueNone(u, i, radix);
    } else {
      assert text[..i] == text;
    }
  }

  // The test before a digit is taken in tells whether the exact value stays below 2^64.
  lemma Overflow(exact: nat, radix: nat, digit: nat, result: nat)
    requires radix in {2, 8, 10, 16} && digit < radix && result == exact % TWO_TO_64
    ensures radix * exact + digit >= 0
    ensures (radix * result + digit) % TWO_TO_64 == (radix * exact + digit) % TWO_TO_64
    ensures
      var limit := 0x8000_0000_0000_0000 / (radix / 2);
      radix * exact + digit >= TWO_TO_64 <==>
      exact >= TWO_TO_64 || result > limit || (result == limit && digit >= if radix == 10 then 6 else 0)
  {
    MulMono(0, radix, exact);
    var q := exact / TWO_TO_64;
    assert exact == q * TWO_TO_64 + result;
    if radix == 2 {
      ModPlus(2 * q, 2 * result + digit);
      assert 0x8000_0000_0000_0000 / 1 == 0x8000_0000_0000_0000;
    } else if radix == 8 {
      ModPlus(8 * q, 8 * result + digit);
      assert 0x8000_0000_0000_0000 / 4 == 0x2000_0000_0000_0000;
    } else if radix == 16 {
      ModPlus(16 * q, 16 * result + digit);
      assert 0x8000_0000_0000_0000 / 8 == 0x1000_0000_0000_0000;
    } else {
      ModPlus(10 * q, 10 * result + digit);
      assert 0x8000_0000_0000_0000 / 5 == 1844674407370955161;
    }
  }

  lemma ModPlus(k: nat, x: nat)
    ensures (k * TWO_TO_64 + x) % TWO_TO_64 == x % TWO_TO_64
  {
  }

  // ---- Which numerals are accepted, and in which radix ----

  predicate AllDigits(s: string, radix: nat) {
    forall i :: 0 <= i < |s| ==> s[i] == '_' || NumValue(s[i]) < radix
  }

  // The digit loop accepts the digits of the radix, and underscores.
  lemma {:induction false} DigitsHaveValue(s: string, radix: nat)
    ensures Value(s, radix).Some? <==> AllDigits(s, radix)
  {
    if s != [] {
      var t := s[..|s| - 1];
      DigitsHaveValue(t, radix);
      assert AllDigits(s, radix) ==> AllDigits(t, radix);
    }
  }

  lemma DecimalForm(s: string)
    requires s != [] && AllDigits(s, 10)
    ensures Split(s) == Digits(10, s)
  {
    NoLetter(s[|s| - 1]);
    if |s| > 2 {
      NoLetter(s[1]);
    }
  }

  lemma NoLetter(c: char)
    requires c == '_' || NumValue(c) < 10
    ensures RadixLetter(c) == 0 && c != '$'
  {
  }

  // A digit can be a radix letter only in hexadecimal, and then of a smaller radix.
  lemma DigitLetter(c: char, radix: nat)
    requires radix in {2, 8, 10, 16} && (c == '_' || NumValue(c) < radix)
    ensures RadixLetter(c) < radix && c != '$' && (radix < 16 ==> RadixLetter(c) == 0)
  {
  }

  // The letters that stand for a radix.
  predicate Letter(c: char, radix: nat) {
    || (radix == 2 && (c == 'b' || c == 'B' || c == 'y' || c == 'Y'))
    || (radix == 8 && (c == 'o' || c == 'O' || c == 'q' || c == 'Q'))
    || (radix == 16 && (c == 'h' || c == 'H' || c == 'x' || c == 'X'))
    || (radix == 10 && (c == 'd' || c == 'D' || c == 't' || c == 'T'))
  }

  lemma LetterExactly(c: char, radix: nat)
    requires radix > 0
    ensures Letter(c, radix) <==> RadixLetter(c) == radix
  {
  }

  // 0x, 0d, 0q, 0b and their like in front of digits of their radix.
  lemma PrefixForm(c: char, radix: nat, s: string)
    requires Letter(c, radix) && s != [] && AllDigits(s, radix)
    ensures Split(['0', c] + s) == Digits(radix, s)
  {
    var t := ['0', c] + s;
    assert t[0] == '0' && t[1] == c && t[2..] == s && t[|t| - 1] == s[|s| - 1];
    DigitLetter(s[|s| - 1], radix);
  }

  lemma DollarForm(s: string)
    requires s != [] && AllDigits(s, 16)
    ensures Split("$" + s) == Digits(16, s)
  {
    var t := "$" + s;
    assert t[0] == '$' && t[1..] == s && t[|t| - 1] == s[|s| - 1];
    DigitLetter(s[|s| - 1], 16);
  }

  // A radix letter behind digits of its radix.
  lemma SuffixForm(s: string, c: char, radix: nat)
    requires Letter(c, radix) && s != [] && AllDigits(s, radix)
    ensures Split(s + [c]) == Digits(radix, s)
  {
    var t := s + [c];
    assert t[..|t| - 1] == s && t[|t| - 1] == c && t[0] == s[0];
    DigitLetter(s[0], radix);
    if |s| > 1 {
      assert t[1] == s[1];
      DigitLetter(s[1], radix);
    }
  }

  // With letters at both ends the greater radix wins. The other letter must then be one of its digits, which
  // only b and d are, in hexadecimal; letters of one radix at both ends are refused.
  lemma BothForms(c: char, p: nat, s: string, e: char, q: nat)
    requires Letter(c, p) && Letter(e, q)
    ensures
      var d := Split(['0', c] + s + [e]);
      Value(d.text, d.radix).Some? <==>
      || (p == 16 && e in "bBdD" && AllDigits(s, 16) && d == Digits(16, s + [e]))
      || (q == 16 && c in "bBdD" && AllDigits(s, 16) && d == Digits(16, ['0', c] + s))
  {
    LetterExactly(c, p);
    LetterExactly(e, q);
    DigitOfLetter(c);
    DigitOfLetter(e);
    BothSplit(c, p, s, e, q);
    hide Value, RadixLetter, Letter, Split, NumValue;
    var d := Split(['0', c] + s + [e]);
    DigitsHaveValue(d.text, d.radix);
    if p > q {
      DigitsBehind(s, e, p);
    } else if q > p {
      DigitsInFront(c, s, q);
    } else {
      DigitsAround(c, s, e);
    }
  }

  lemma BothSplit(c: char, p: nat, s: string, e: char, q: nat)
    requires RadixLetter(c) == p > 0 && RadixLetter(e) == q > 0
    ensures
      Split(['0', c] + s + [e]) ==
      if p > q then Digits(p, s + [e]) else if q > p then Digits(q, ['0', c] + s) else Digits(10, ['0', c] + s + [e])
  {
    hide RadixLetter;
    var t := ['0', c] + s + [e];
    assert t[0] == '0' && t[1] == c && t[|t| - 1] == e && t[2..] == s + [e] && t[..|t| - 1] == ['0', c] + s;
  }

  lemma DigitsBehind(s: string, e: char, radix: nat)
    ensures AllDigits(s + [e], radix) <==> AllDigits(s, radix) && (e == '_' || NumValue(e) < radix)
  {
    hide NumValue;
    var u := s + [e];
    assert u[|s|] == e && forall i :: 0 <= i < |s| ==> u[i] == s[i];
  }

  lemma DigitsInFront(c: char, s: string, radix: nat)
    requires radix > 0
    ensures AllDigits(['0', c] + s, radix) <==> AllDigits(s, radix) && (c == '_' || NumValue(c) < radix)
  {
    var v := ['0', c] + s;
    assert NumValue('0') == 0;
    hide NumValue;
    assert v[1] == c && v[0] == '0' && forall i :: 0 <= i < |s| ==> v[2 + i] == s[i];
  }

  lemma DigitsAround(c: char, s: string, e: char)
    ensures AllDigits(['0', c] + s + [e], 10) ==> c == '_' || NumValue(c) < 10
  {
    hide NumValue;
    assert (['0', c] + s + [e])[1] == c;
  }

  lemma DigitOfLetter(c: char)
    requires RadixLetter(c) != 0
    ensures c != '_' && 10 < NumValue(c) && (NumValue(c) < 16 <==> c in "bBdD") && (c in "bBdD" ==> RadixLetter(c) < 16)
  {
  }
}
