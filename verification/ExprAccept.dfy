// Which sums the evaluator accepts.

module ExprAccept {
  import opened Common
  import opened X86
  import opened ExprSpec
  import opened ExprText

  // Numbers are 64-bit, signed.
  predicate InRange(fs: seq<Factor>) {
    forall i :: 0 <= i < |fs| && fs[i].atom.Num? ==> -0x8000_0000_0000_0000 <= fs[i].atom.v < 0x8000_0000_0000_0000
  }

  // The product of all numbers and signs, registers left out.
  function Coefficient(fs: seq<Factor>): int {
    if fs == [] then 1 else Coefficient(fs[..|fs| - 1]) * FactorValue(fs[|fs| - 1], n => 1)
  }

  predicate HasRegister(fs: seq<Factor>) {
    exists i :: 0 <= i < |fs| && fs[i].atom.Reg?
  }

  // Two registers are multiplied only where the numbers so far make zero of the first.
  predicate Scalar(fs: seq<Factor>) {
    forall j :: 0 <= j < |fs| && fs[j].atom.Reg? && HasRegister(fs[..j]) ==> Coefficient(fs[..j]) % TWO64 == 0
  }

  // A vector of one term: n times a register or a plain number.
  predicate Single(v: Vect, reg: bool, n: int) {
    |v| == 1 && v[0].value == Wrap64(n) && (v[0].value != 0 ==> (v[0].key.RegKey? <==> reg))
  }

  lemma WrapUnique(x: int, y: int)
    requires Same64(x, y)
    ensures Wrap64(x) == Wrap64(y)
  {
    var k :| x - y == k * TWO64;
    WrapMod(x, y, k);
  }

  lemma WrapMod(x: int, y: int, k: int)
    requires x - y == k * TWO64
    ensures x % TWO64 == y % TWO64
  {
    var q, r := y / TWO64, y % TWO64;
    assert x == (q + k) * TWO64 + r;
    Remainder(q + k, r);
  }

  lemma Remainder(q: int, r: nat)
    requires r < TWO64
    ensures (q * TWO64 + r) % TWO64 == r
  {
  }

  lemma WrapZero(x: int)
    ensures Wrap64(x) == 0 <==> x % TWO64 == 0
  {
  }

  lemma WrapTimes(a: int, b: int)
    ensures Wrap64(Wrap64(a) * Wrap64(b)) == Wrap64(a * b)
  {
    hide Wrap64;
    WrapSame(a);
    WrapSame(b);
    SameMul(Wrap64(a), a, Wrap64(b), b);
    WrapUnique(Wrap64(a) * Wrap64(b), a * b);
  }

  lemma WrapNegative(a: int)
    ensures Wrap64(-1 * Wrap64(a)) == Wrap64(-a)
  {
    hide Wrap64;
    WrapSame(a);
    SameBy(-1, -1, 0);
    SameMul(-1, -1, Wrap64(a), a);
    WrapUnique(-1 * Wrap64(a), -a);
  }

  lemma SingleSimple(v: Vect, reg: bool, n: int)
    requires Single(v, reg, n)
    ensures IsSimple(v) <==> !reg || n % TWO64 == 0
    ensures IsSimple(v) ==> RelocValue(v) == Wrap64(n)
  {
    hide Wrap64;
    WrapZero(n);
    assert v[1..] == [];
    if v[0].value == 0 {
      assert SkipZeros(v) == [];
    } else {
      assert SkipZeros(v) == v;
    }
  }

  lemma ProductSingle(p: Vect, a: bool, m: int, q: Vect, b: bool, n: int)
    requires Single(p, a, m) && Single(q, b, n)
    ensures Product(p, q).Some? <==> !a || !b || m % TWO64 == 0 || n % TWO64 == 0
    ensures Product(p, q).Some? ==> Single(Product(p, q).value, a || b, m * n)
  {
    hide Wrap64, IsSimple, RelocValue;
    SingleSimple(p, a, m);
    SingleSimple(q, b, n);
    WrapZero(m);
    WrapZero(n);
    WrapTimes(m, n);
    WrapTimes(n, m);
    WrapZero(m * n);
    ZeroTimes(m, n);
    assert m * n == n * m;
  }

  lemma ZeroTimes(m: int, n: int)
    ensures m % TWO64 == 0 || n % TWO64 == 0 ==> (m * n) % TWO64 == 0
  {
    if m % TWO64 == 0 {
      var k := m / TWO64;
      assert m * n == (k * n) * TWO64 + 0;
      Remainder(k * n, 0);
    } else if n % TWO64 == 0 {
      var k := n / TWO64;
      assert m * n == (k * m) * TWO64 + 0;
      Remainder(k * m, 0);
    }
  }

  lemma NegatedSingle(v: Vect, reg: bool, n: int)
    requires Single(v, reg, n)
    ensures Single(Scaled(v, -1), reg, -n)
  {
    hide Wrap64;
    WrapNegative(n);
    WrapZero(n);
    WrapZero(-n);
    assert -n % TWO64 == 0 ==> n % TWO64 == 0;
  }

  lemma AtomSingle(x: Atom)
    requires InRange([Factor([], x)])
    ensures Single([match x case Num(v) => Term(Simple, v) case Reg(n) => Term(RegKey(n), 1)], x.Reg?,
                   FactorValue(Factor([], x), n => 1))
  {
    assert [Factor([], x)][0].atom == x;
  }

  lemma FirstSign(f: Factor, e: Env)
    requires f.signs != []
    ensures
      var x := FactorValue(f.(signs := f.signs[1..]), e);
      FactorValue(f, e) == if f.signs[0] then -x else x
  {
  }

  lemma {:induction false} FactorAccepted(t: seq<Token>, i: nat, f: Factor)
    requires Stand(t, i, FactorTokens(f)) && InRange([f])
    ensures Parse6(t, i).Some? && Eval(Parse6(t, i).value.0).Some?
    ensures Single(Eval(Parse6(t, i).value.0).value, f.atom.Reg?, FactorValue(f, n => 1))
    decreases |f.signs|
  {
    hide Single, FactorValue, Scaled, InRange;
    var a := match f.atom case Num(v) => NumTok(v) case Reg(n) => RegTok(n);
    if f.signs == [] {
      assert FactorTokens(f) == [a] + [] && f == Factor([], f.atom);
      StandFirst(t, i, a, []);
      AtomSingle(f.atom);
    } else {
      var g := f.(signs := f.signs[1..]);
      var s := if f.signs[0] then Minus else Plus;
      assert FactorTokens(f) == [s] + FactorTokens(g);
      StandFirst(t, i, s, FactorTokens(g));
      SameRange(f, g);
      FactorAccepted(t, i + 1, g);
      FirstSign(f, n => 1);
      if f.signs[0] {
        NegatedSingle(Eval(Parse6(t, i + 1).value.0).value, f.atom.Reg?, FactorValue(g, n => 1));
      }
    }
  }

  lemma SameRange(f: Factor, g: Factor)
    requires InRange([f]) && f.atom == g.atom
    ensures InRange([g])
  {
    assert [f][0] == f;
  }

  // What has been evaluated of a product: nothing if two registers met, else one term.
  predicate SoFar(a: Ast, fs: seq<Factor>) {
    if Scalar(fs) then Eval(a).Some? && Single(Eval(a).value, HasRegister(fs), Coefficient(fs)) else Eval(a).None?
  }

  lemma ScalarNext(fs: seq<Factor>, f: Factor)
    ensures Scalar(fs + [f]) <==> Scalar(fs) && (f.atom.Reg? && HasRegister(fs) ==> Coefficient(fs) % TWO64 == 0)
    ensures HasRegister(fs + [f]) <==> HasRegister(fs) || f.atom.Reg?
    ensures Coefficient(fs + [f]) == Coefficient(fs) * FactorValue(f, n => 1)
  {
    hide Coefficient, HasRegister;
    var g := fs + [f];
    forall j | 0 <= j < |fs| ensures g[..j] == fs[..j] && g[j] == fs[j] {
    }
    assert g[..|fs|] == fs && g[|fs|] == f;
    NextParts(fs, f);
  }

  lemma NextParts(fs: seq<Factor>, f: Factor)
    ensures HasRegister(fs + [f]) <==> HasRegister(fs) || f.atom.Reg?
    ensures Coefficient(fs + [f]) == Coefficient(fs) * FactorValue(f, n => 1)
  {
    var g := fs + [f];
    assert g[..|g| - 1] == fs && g[|g| - 1] == f;
    if HasRegister(fs) {
      var i :| 0 <= i < |fs| && fs[i].atom.Reg?;
      assert g[i].atom.Reg?;
    }
    if HasRegister(g) {
      var i :| 0 <= i < |g| && g[i].atom.Reg?;
      assert i < |fs| ==> fs[i].atom.Reg?;
    }
  }

  lemma SoFarNext(a: Ast, b: Ast, fs: seq<Factor>, f: Factor)
    requires SoFar(a, fs) && Eval(b).Some? && Single(Eval(b).value, f.atom.Reg?, FactorValue(f, n => 1))
    requires InRange([f])
    ensures SoFar(Mul(a, b), fs + [f])
  {
    hide Scalar, HasRegister, Coefficient, Single;
    ScalarNext(fs, f);
    RegisterOdd(f);
    if Scalar(fs) {
      var p, q := Eval(a).value, Eval(b).value;
      ProductSingle(p, HasRegister(fs), Coefficient(fs), q, f.atom.Reg?, FactorValue(f, n => 1));
    }
  }

  // A register is never multiplied by zero in its own factor.
  lemma RegisterOdd(f: Factor)
    ensures f.atom.Reg? ==> FactorValue(f, n => 1) % TWO64 != 0
  {
  }

  lemma {:induction false} TimesAccepted(t: seq<Token>, i: nat, fs: seq<Factor>, a: Ast, done: seq<Factor>)
    requires Stand(t, i, TimesTokens(fs)) && Tok(t, i + |TimesTokens(fs)|) != Star && InRange(fs) && SoFar(a, done)
    ensures Parse5Rest(t, i, a).Some? && SoFar(Parse5Rest(t, i, a).value.0, done + fs)
    decreases |fs|
  {
    hide FactorTokens, Parse6, FactorValue, SoFar, Single, InRange, Eval;
    if fs == [] {
      assert done + fs == done;
    } else {
      var x, y := FactorTokens(fs[0]), TimesTokens(fs[1..]);
      assert TimesTokens(fs) == [Star] + (x + y);
      StandFirst(t, i, Star, x + y);
      StandParts(t, i + 1, x, y);
      ReadsFactor(t, i + 1, fs[0]);
      RangeParts(fs);
      FactorAccepted(t, i + 1, fs[0]);
      var b := Parse6(t, i + 1).value.0;
      SoFarNext(a, b, done, fs[0]);
      TimesAccepted(t, i + 1 + |x|, fs[1..], Mul(a, b), done + [fs[0]]);
      assert done + [fs[0]] + fs[1..] == done + fs;
    }
  }

  lemma RangeParts(fs: seq<Factor>)
    requires fs != [] && InRange(fs)
    ensures InRange([fs[0]]) && InRange(fs[1..])
  {
  }

  lemma ProductAccepted(t: seq<Token>, i: nat, fs: seq<Factor>)
    requires fs != [] && Stand(t, i, ProductTokens(fs)) && Tok(t, i + |ProductTokens(fs)|) != Star && InRange(fs)
    ensures Parse5(t, i).Some? && (Eval(Parse5(t, i).value.0).Some? <==> Scalar(fs))
  {
    hide FactorTokens, Parse6, FactorValue, TimesTokens, Single, Scalar, Eval;
    StandParts(t, i, FactorTokens(fs[0]), TimesTokens(fs[1..]));
    ReadsFactor(t, i, fs[0]);
    RangeParts(fs);
    FactorAccepted(t, i, fs[0]);
    FirstSoFar(Parse6(t, i).value.0, fs[0]);
    TimesAccepted(t, i + |FactorTokens(fs[0])|, fs[1..], Parse6(t, i).value.0, [fs[0]]);
    assert [fs[0]] + fs[1..] == fs;
  }

  lemma FirstSoFar(a: Ast, f: Factor)
    requires Eval(a).Some? && Single(Eval(a).value, f.atom.Reg?, FactorValue(f, n => 1))
    ensures SoFar(a, [f])
  {
    hide Single, FactorValue;
    ScalarNext([], f);
    assert [] + [f] == [f];
    assert !HasRegister([]) && Scalar([]) && Coefficient([]) == 1;
  }

  predicate AllScalar(ps: seq<Signed>) {
    ps == [] || (Scalar(ps[0].factors) && AllScalar(ps[1..]))
  }

  predicate AllInRange(ps: seq<Signed>) {
    ps == [] || (InRange(ps[0].factors) && AllInRange(ps[1..]))
  }

  lemma {:induction false} MoreAccepted(t: seq<Token>, i: nat, ps: seq<Signed>, a: Ast)
    requires Products(ps) && Stand(t, i, MoreTokens(ps)) && Ends(t, i + |MoreTokens(ps)|) && AllInRange(ps)
    ensures Parse4Rest(t, i, a).Some?
    ensures Eval(Parse4Rest(t, i, a).value.0).Some? <==> Eval(a).Some? && AllScalar(ps)
    decreases |ps|
  {
    hide ProductTokens, Parse5, Scalar, InRange, Eval, Stand;
    if ps != [] {
      var s, x, y := if ps[0].minus then Minus else Plus, ProductTokens(ps[0].factors), MoreTokens(ps[1..]);
      assert MoreTokens(ps) == [s] + (x + y);
      StandFirst(t, i, s, x + y);
      StandParts(t, i + 1, x, y);
      NextIsSign(t, i + 1 + |x|, ps[1..]);
      ReadsProduct(t, i + 1, ps[0].factors);
      ProductAccepted(t, i + 1, ps[0].factors);
      var b := Parse5(t, i + 1).value.0;
      BothAccepted(a, b);
      MoreAccepted(t, i + 1 + |x|, ps[1..], if s == Plus then Add(a, b) else Sub(a, b));
    }
  }

  lemma BothAccepted(a: Ast, b: Ast)
    ensures Eval(Add(a, b)).Some? <==> Eval(a).Some? && Eval(b).Some?
    ensures Eval(Sub(a, b)).Some? <==> Eval(a).Some? && Eval(b).Some?
  {
  }

  // Main result: the evaluator accepts a sum if and only if no product multiplies two registers, unless the numbers
  // before the second one have made zero of it.
  lemma SumAccepted(t: seq<Token>, i: nat, first: seq<Factor>, ps: seq<Signed>)
    requires first != [] && Products(ps) && Stand(t, i, SumTokens(first, ps)) && Ends(t, i + |SumTokens(first, ps)|)
    requires InRange(first) && AllInRange(ps)
    ensures Parse4(t, i).Some?
    ensures Eval(Parse4(t, i).value.0).Some? <==> Scalar(first) && AllScalar(ps)
  {
    hide ProductTokens, MoreTokens, Parse5, Parse4Rest, Scalar, InRange, Eval;
    StandParts(t, i, ProductTokens(first), MoreTokens(ps));
    NextIsSign(t, i + |ProductTokens(first)|, ps);
    ReadsProduct(t, i, first);
    ProductAccepted(t, i, first);
    MoreAccepted(t, i + |ProductTokens(first)|, ps, Parse5(t, i).value.0);
  }
}
