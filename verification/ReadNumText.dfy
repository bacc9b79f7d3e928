// Whole texts that readnum reads.

module ReadNumText {
  import opened Common
  import opened Arithmetic
  import opened Positional
  import opened ReadNum

  // Digits written in any way have the value that they spell.
  lemma {:induction false} ValueWritten(s: string, d: seq<nat>, radix: nat)
    requires Writes(s, d) && Below(d, radix) && radix <= 16
    ensures Value(s, radix) == Some(Spelled(d, radix)) && AllDigits(s, radix)
  {
    if s != [] {
      var c, t := s[|s| - 1], s[..|s| - 1];
      if c == '_' {
        ValueWritten(t, d, radix);
      } else {
        var u, x := d[..|d| - 1], d[|d| - 1];
        ValueWritten(t, u, radix);
        DigitWritten(c, x);
        assert d == u + [x];
        SpelledNext(u, x, radix);
      }
    }
  }

  lemma DigitWritten(c: char, x: nat)
    requires x < 16 && (c == LOWER[x] || c == UPPER[x])
    ensures NumValue(c) == x && c != '_' && IsNumChar(c)
  {
  }

  lemma {:induction false} CharsWritten(s: string, d: seq<nat>)
    requires Writes(s, d)
    ensures forall i :: 0 <= i < |s| ==> IsNumChar(s[i]) && s[i] != '$'
  {
    if s != [] {
      var c := s[|s| - 1];
      if c == '_' {
        CharsWritten(s[..|s| - 1], d);
      } else {
        DigitWritten(c, d[|d| - 1]);
        CharsWritten(s[..|s| - 1], d[..|d| - 1]);
      }
    }
  }

  // A numeral t of a radix: a prefix, a dollar sign or a suffix, or plain decimal digits.
  ghost predicate Numeral(t: string, radix: nat, s: string) {
    s != [] &&
    ( || (exists c :: Letter(c, radix) && t == ['0', c] + s)
      || (exists c :: Letter(c, radix) && t == s + [c])
      || (radix == 16 && t == "$" + s)
      || (radix == 10 && t == s))
  }

  ghost predicate Blank(w: string) {
    forall i :: 0 <= i < |w| ==> w[i] == ' ' || w[i] == '\t'
  }

  lemma SplitNumeral(t: string, radix: nat, s: string, d: seq<nat>)
    requires Numeral(t, radix, s) && Writes(s, d) && Below(d, radix) && radix in {2, 8, 10, 16}
    ensures Split(t) == Digits(radix, s) && t != [] && forall i :: 0 <= i < |t| ==> IsNumChar(t[i])
  {
    ValueWritten(s, d, radix);
    CharsWritten(s, d);
    hide Split, Value;
    if c :| Letter(c, radix) && t == ['0', c] + s {
      PrefixForm(c, radix, s);
    } else if c :| Letter(c, radix) && t == s + [c] {
      SuffixForm(s, c, radix);
    } else if radix == 16 && t == "$" + s {
      DollarForm(s);
    } else {
      DecimalForm(s);
    }
  }

  lemma {:induction false} SpacesOf(w: string, rest: string)
    requires Blank(w) && (rest == [] || !IsSpace(rest[0]))
    ensures Spaces(w + rest) == |w|
  {
    if w == [] {
      assert w + rest == rest;
    } else {
      assert (w + rest)[1..] == w[1..] + rest;
      SpacesOf(w[1..], rest);
    }
  }

  lemma {:induction false} NumCharsOf(t: string, rest: string)
    requires (forall i :: 0 <= i < |t| ==> IsNumChar(t[i])) && (rest == [] || !IsNumChar(rest[0]))
    ensures NumChars(t + rest) == |t|
  {
    if t == [] {
      assert t + rest == rest;
    } else {
      assert (t + rest)[1..] == t[1..] + rest;
      NumCharsOf(t[1..], rest);
    }
  }

  // Main result: blanks, a sign, a numeral in any of its forms and anything that cannot belong to it read as the sign
  // and the number that its digits spell.
  lemma ReadsNumeral(w: string, minus: bool, t: string, rest: string, radix: nat, s: string, d: seq<nat>)
    requires Blank(w) && Numeral(t, radix, s) && Writes(s, d) && Below(d, radix) && radix in {2, 8, 10, 16}
    requires rest == [] || !IsNumChar(rest[0])
    ensures Parse(w + (if minus then "-" else "") + t + rest) == Some(Number(minus, Spelled(d, radix)))
  {
    hide Split, Value, Spaces, NumChars, IsNumChar, Numeral;
    SplitNumeral(t, radix, s, d);
    ValueWritten(s, d, radix);
    var u := (if minus then "-" else "") + t + rest;
    var str := w + (if minus then "-" else "") + t + rest;
    assert str == w + u;
    FirstOf(minus, t, rest);
    SpacesOf(w, u);
    assert str[|w|..] == u;
    NumCharsOf(t, rest);
    assert (if minus then u[1..] else u) == t + rest;
    assert (t + rest)[..|t|] == t;
  }

  lemma FirstOf(minus: bool, t: string, rest: string)
    requires t != [] && IsNumChar(t[0])
    ensures
      var u := (if minus then "-" else "") + t + rest;
      u != [] && !IsSpace(u[0]) && (u[0] == '-' <==> minus)
  {
  }
}
