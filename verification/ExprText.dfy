// What the text of an address means.

module ExprText {
  import opened Common
  import opened X86
  import opened ExprSpec

  // A number or a register behind any signs; true stands for a minus.
  datatype Atom = Num(v: int) | Reg(n: nat)

  datatype Factor = Factor(signs: seq<bool>, atom: Atom)

  // A product behind its sign.
  datatype Signed = Signed(minus: bool, factors: seq<Factor>)

  // ---- How it is written ----

  function SignTokens(signs: seq<bool>): seq<Token> {
    seq(|signs|, i requires 0 <= i < |signs| => if signs[i] then Minus else Plus)
  }

  function FactorTokens(f: Factor): seq<Token> {
    SignTokens(f.signs) + [match f.atom case Num(v) => NumTok(v) case Reg(n) => RegTok(n)]
  }

  function TimesTokens(fs: seq<Factor>): seq<Token> {
    if fs == [] then [] else [Star] + FactorTokens(fs[0]) + TimesTokens(fs[1..])
  }

  function ProductTokens(fs: seq<Factor>): seq<Token>
    requires fs != []
  {
    FactorTokens(fs[0]) + TimesTokens(fs[1..])
  }

  ghost predicate Products(ps: seq<Signed>) {
    forall i :: 0 <= i < |ps| ==> ps[i].factors != []
  }

  function MoreTokens(ps: seq<Signed>): seq<Token>
    requires forall i :: 0 <= i < |ps| ==> ps[i].factors != []
  {
    if ps == [] then []
    else [if ps[0].minus then Minus else Plus] + ProductTokens(ps[0].factors) + MoreTokens(ps[1..])
  }

  // A first product without a sign of its own, and more products.
  function SumTokens(first: seq<Factor>, ps: seq<Signed>): seq<Token>
    requires first != [] && forall i :: 0 <= i < |ps| ==> ps[i].factors != []
  {
    ProductTokens(first) + MoreTokens(ps)
  }

  // ---- What it denotes ----

  function Minuses(signs: seq<bool>): nat {
    if signs == [] then 0 else (if signs[0] then 1 else 0) + Minuses(signs[1..])
  }

  // An odd number of minus signs changes the sign.
  function FactorValue(f: Factor, e: Env): int {
    var x := match f.atom case Num(v) => v case Reg(n) => e(n);
    if Minuses(f.signs) % 2 == 1 then -x else x
  }

  function ProductValue(fs: seq<Factor>, e: Env): int {
    if fs == [] then 1 else FactorValue(fs[0], e) * ProductValue(fs[1..], e)
  }

  function MoreValue(ps: seq<Signed>, e: Env): int {
    if ps == [] then 0
    else
      var x := ProductValue(ps[0].factors, e);
      (if ps[0].minus then -x else x) + MoreValue(ps[1..], e)
  }

  function SumValue(first: seq<Factor>, ps: seq<Signed>, e: Env): int {
    ProductValue(first, e) + MoreValue(ps, e)
  }

  // ---- Reading it ----

  // The tokens x stand at index i.
  ghost predicate Stand(t: seq<Token>, i: nat, x: seq<Token>) {
    i + |x| <= |t| && t[i..i + |x|] == x
  }

  lemma StandParts(t: seq<Token>, i: nat, x: seq<Token>, y: seq<Token>)
    requires Stand(t, i, x + y)
    ensures Stand(t, i, x) && Stand(t, i + |x|, y)
  {
    assert t[i..i + |x|] == (x + y)[..|x|];
    assert t[i + |x|..i + |x| + |y|] == (x + y)[|x|..];
  }

  lemma StandFirst(t: seq<Token>, i: nat, a: Token, y: seq<Token>)
    requires Stand(t, i, [a] + y)
    ensures Tok(t, i) == a && Stand(t, i + 1, y)
  {
    StandParts(t, i, [a], y);
    assert t[i..i + 1][0] == t[i];
  }

  lemma {:induction false} ReadsFactor(t: seq<Token>, i: nat, f: Factor)
    requires Stand(t, i, FactorTokens(f))
    ensures Parse6(t, i).Some? && Parse6(t, i).value.1 == i + |FactorTokens(f)|
    ensures forall e: Env :: Meaning(Parse6(t, i).value.0, e) == FactorValue(f, e)
    decreases |f.signs|
  {
    var a := match f.atom case Num(v) => NumTok(v) case Reg(n) => RegTok(n);
    if f.signs == [] {
      assert FactorTokens(f) == [a] + [];
      StandFirst(t, i, a, []);
    } else {
      var g := f.(signs := f.signs[1..]);
      assert FactorTokens(f) == [if f.signs[0] then Minus else Plus] + FactorTokens(g);
      StandFirst(t, i, if f.signs[0] then Minus else Plus, FactorTokens(g));
      ReadsFactor(t, i + 1, g);
    }
  }

  lemma {:induction false} ReadsTimes(t: seq<Token>, i: nat, fs: seq<Factor>, a: Ast)
    requires Stand(t, i, TimesTokens(fs)) && Tok(t, i + |TimesTokens(fs)|) != Star
    ensures Parse5Rest(t, i, a).Some? && Parse5Rest(t, i, a).value.1 == i + |TimesTokens(fs)|
    ensures forall e: Env :: Meaning(Parse5Rest(t, i, a).value.0, e) == Meaning(a, e) * ProductValue(fs, e)
    decreases |fs|
  {
    hide FactorTokens, Parse6, FactorValue;
    if fs != [] {
      var x, y := FactorTokens(fs[0]), TimesTokens(fs[1..]);
      assert TimesTokens(fs) == [Star] + (x + y);
      StandFirst(t, i, Star, x + y);
      StandParts(t, i + 1, x, y);
      ReadsFactor(t, i + 1, fs[0]);
      var b := Parse6(t, i + 1).value.0;
      ReadsTimes(t, i + 1 + |x|, fs[1..], Mul(a, b));
      forall e: Env
        ensures Meaning(Mul(a, b), e) * ProductValue(fs[1..], e) == Meaning(a, e) * ProductValue(fs, e)
      {
        Regroup(Meaning(a, e), FactorValue(fs[0], e), ProductValue(fs[1..], e));
      }
    }
  }

  lemma Regroup(a: int, b: int, c: int)
    ensures a * b * c == a * (b * c)
  {
  }

  lemma ReadsProduct(t: seq<Token>, i: nat, fs: seq<Factor>)
    requires fs != [] && Stand(t, i, ProductTokens(fs)) && Tok(t, i + |ProductTokens(fs)|) != Star
    ensures Parse5(t, i).Some? && Parse5(t, i).value.1 == i + |ProductTokens(fs)|
    ensures forall e: Env :: Meaning(Parse5(t, i).value.0, e) == ProductValue(fs, e)
  {
    hide FactorTokens, Parse6, FactorValue, TimesTokens, Parse5Rest;
    StandParts(t, i, FactorTokens(fs[0]), TimesTokens(fs[1..]));
    ReadsFactor(t, i, fs[0]);
    ReadsTimes(t, i + |FactorTokens(fs[0])|, fs[1..], Parse6(t, i).value.0);
  }

  // What may follow a sum.
  predicate Ends(t: seq<Token>, i: nat) {
    Tok(t, i) != Star && Tok(t, i) != Plus && Tok(t, i) != Minus
  }

  lemma {:induction false} ReadsMore(t: seq<Token>, i: nat, ps: seq<Signed>, a: Ast)
    requires Products(ps) && Stand(t, i, MoreTokens(ps)) && Ends(t, i + |MoreTokens(ps)|)
    ensures Parse4Rest(t, i, a).Some? && Parse4Rest(t, i, a).value.1 == i + |MoreTokens(ps)|
    ensures forall e: Env :: Meaning(Parse4Rest(t, i, a).value.0, e) == Meaning(a, e) + MoreValue(ps, e)
    decreases |ps|
  {
    hide ProductTokens, Parse5, ProductValue, Stand;
    if ps != [] {
      var s, x, y := if ps[0].minus then Minus else Plus, ProductTokens(ps[0].factors), MoreTokens(ps[1..]);
      assert MoreTokens(ps) == [s] + (x + y);
      StandFirst(t, i, s, x + y);
      StandParts(t, i + 1, x, y);
      NextIsSign(t, i + 1 + |x|, ps[1..]);
      ReadsProduct(t, i + 1, ps[0].factors);
      var b := Parse5(t, i + 1).value.0;
      ReadsMore(t, i + 1 + |x|, ps[1..], if s == Plus then Add(a, b) else Sub(a, b));
    }
  }

  lemma NextIsSign(t: seq<Token>, i: nat, ps: seq<Signed>)
    requires Products(ps) && Stand(t, i, MoreTokens(ps)) && Ends(t, i + |MoreTokens(ps)|)
    ensures Tok(t, i) != Star
  {
    if ps != [] {
      var s, x, y := if ps[0].minus then Minus else Plus, ProductTokens(ps[0].factors), MoreTokens(ps[1..]);
      assert MoreTokens(ps) == [s] + (x + y);
      StandFirst(t, i, s, x + y);
    }
  }

  // Main result: the parser takes exactly the tokens of a sum, and its Ast means that sum.
  lemma ReadsSum(t: seq<Token>, i: nat, first: seq<Factor>, ps: seq<Signed>)
    requires first != [] && Products(ps) && Stand(t, i, SumTokens(first, ps)) && Ends(t, i + |SumTokens(first, ps)|)
    ensures Parse4(t, i).Some? && Parse4(t, i).value.1 == i + |SumTokens(first, ps)|
    ensures forall e: Env :: Meaning(Parse4(t, i).value.0, e) == SumValue(first, ps, e)
  {
    hide ProductTokens, MoreTokens, Parse5, ProductValue, Parse4Rest;
    StandParts(t, i, ProductTokens(first), MoreTokens(ps));
    NextIsSign(t, i + |ProductTokens(first)|, ps);
    ReadsProduct(t, i, first);
    ReadsMore(t, i + |ProductTokens(first)|, ps, Parse5(t, i).value.0);
  }
}
