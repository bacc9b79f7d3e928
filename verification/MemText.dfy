// The text of a random memory operand.

module MemText {
  import opened ExprText
  import A = MemAddr

  // The sum in the brackets: base register b, index register i, and the start of the section as a number.
  function Written(mode: A.Mode, a: A.RandomAddr, b: nat, i: nat, start: int): (seq<Factor>, seq<Signed>) {
    var base, disp := [Factor([], Reg(b))], Signed(false, [Factor([], Num(a.disp))]);
    var index, scaled := [Factor([], Reg(i))], [Factor([], Reg(i)), Factor([], Num(a.scale))];
    match mode
    case D => ([Factor([], Num(start))], [])
    case B => (base, [])
    case BD => (base, [disp])
    case ISD => (scaled, [Signed(false, [Factor([], Num(start))])])
    case BID => (base, [Signed(false, index), disp])
    case BISD => (base, [Signed(false, scaled), disp])
  }

  // With the base register at the start of the section and the index register at the index, as they are set up, the
  // operand addresses the offset that was drawn.
  lemma WrittenOffset(mode: A.Mode, a: A.RandomAddr, b: nat, i: nat, start: int, e: nat -> int)
    requires e(b) == start && e(i) == a.index
    ensures
      var (first, ps) := Written(mode, a, b, i, start);
      SumValue(first, ps, e) == start + A.Offset(mode, a)
  {
    var scaled := [Factor([], Reg(i)), Factor([], Num(a.scale))];
    One(Reg(b), e);
    One(Reg(i), e);
    One(Num(start), e);
    One(Num(a.disp), e);
    One(Num(a.scale), e);
    assert scaled[1..] == [Factor([], Num(a.scale))];
    assert ProductValue(scaled, e) == a.index * a.scale == a.scale * a.index;
    hide ProductValue;
    More(Written(mode, a, b, i, start).1, e);
  }

  lemma One(x: Atom, e: nat -> int)
    ensures ProductValue([Factor([], x)], e) == FactorValue(Factor([], x), e)
  {
    assert [Factor([], x)][1..] == [];
  }

  lemma More(ps: seq<Signed>, e: nat -> int)
    requires |ps| <= 2 && forall k :: 0 <= k < |ps| ==> !ps[k].minus
    ensures |ps| == 0 ==> MoreValue(ps, e) == 0
    ensures |ps| == 1 ==> MoreValue(ps, e) == ProductValue(ps[0].factors, e)
    ensures |ps| == 2 ==> MoreValue(ps, e) == ProductValue(ps[0].factors, e) + ProductValue(ps[1].factors, e)
  {
    hide ProductValue;
    if |ps| == 2 {
      assert ps[1..] == [ps[1]] && ps[1..][1..] == [];
    } else if |ps| == 1 {
      assert ps[1..] == [];
    }
  }
}
