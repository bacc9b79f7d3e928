// The recursive-descent evaluator over its token cursor.

module ExprCode {
  import opened Common
  import opened X86
  import opened EaSpec
  import opened ExprSpec
  import opened Mref

  // is_simple
  method TestSimple(v: array<Term>) returns (r: bool)
    ensures r == IsSimple(v[..])
  {
    hide SkipZeros;
    ghost var a := v[..];
    var i := 0;
    assert a[0..] == a;
    while i < v.Length && v[i].value == 0
      invariant i <= v.Length && SkipZeros(a) == SkipZeros(a[i..])
    {
      SkipOne(a, i);
      i := i + 1;
    }
    SkipStop(a, i);
    if i == v.Length {
      return true;
    }
    if v[i].key != Simple {
      return false;
    }
    i := i + 1;
    ghost var k := i;
    assert a[k - 1..][1..] == a[k..];
    while i < v.Length && v[i].value == 0
      invariant k <= i <= v.Length && SkipZeros(a[k..]) == SkipZeros(a[i..])
    {
      SkipOne(a, i);
      i := i + 1;
    }
    SkipStop(a, i);
    return i == v.Length;
  }

  lemma SkipOne(a: Vect, i: nat)
    requires i < |a| && a[i].value == 0
    ensures SkipZeros(a[i..]) == SkipZeros(a[i + 1..])
  {
    assert a[i..][1..] == a[i + 1..];
  }

  lemma SkipStop(a: Vect, i: nat)
    requires i <= |a| && (i < |a| ==> a[i].value != 0)
    ensures SkipZeros(a[i..]) == a[i..]
  {
  }

  // reloc_value
  method FindRelocValue(v: array<Term>) returns (r: int)
    ensures r == RelocValue(v[..])
  {
    hide SkipZeros;
    ghost var a := v[..];
    var i := 0;
    assert a[0..] == a;
    while i < v.Length && v[i].value == 0
      invariant i <= v.Length && SkipZeros(a) == SkipZeros(a[i..])
    {
      SkipOne(a, i);
      i := i + 1;
    }
    SkipStop(a, i);
    if i == v.Length {
      return 0;
    }
    return if v[i].key == Simple then v[i].value else 0;
  }

  // finishtemp
  method Finish(temp: seq<Term>) returns (v: array<Term>)
    ensures fresh(v) && v[..] == temp
  {
    v := new Term[|temp|](i requires 0 <= i < |temp| => temp[i]);
  }

  method SingleTerm(t: Term) returns (v: array<Term>)
    ensures fresh(v) && v[..] == [t]
  {
    v := Finish([t]);
  }

  class Evaluator {
    const tokens: seq<Token>
    var pos: nat
    var hint: Hint
    var hintBase: Option<nat>

    constructor (tokens: seq<Token>)
      ensures this.tokens == tokens && pos == 0
    {
      this.tokens := tokens;
      pos, hint, hintBase := 0, NoHint, None;
    }

    // Merges into a new vector.
    method AddVectors(p: array<Term>, q: array<Term>) returns (r: array<Term>)
      modifies this`hint
      ensures fresh(r) && r[..] == Sum(p[..], q[..])
    {
      hide Wrap64, Before, Sum;
      ghost var a, b := p[..], q[..];
      var i, j, temp := 0, 0, [];
      assert a[0..] == a && b[0..] == b;
      while i < p.Length && j < q.Length
        invariant i <= p.Length && j <= q.Length
        invariant Sum(a, b) == temp + Sum(a[i..], b[j..])
      {
        if Before(q[j].key, p[i].key) {
          MergeRight(a, b, i, j);
          MoveOn(temp, [q[j]], Sum(a[i..], b[j + 1..]));
          temp, j := temp + [q[j]], j + 1;
        } else if Before(p[i].key, q[j].key) {
          MergeLeft(a, b, i, j);
          MoveOn(temp, [p[i]], Sum(a[i + 1..], b[j..]));
          temp, i := temp + [p[i]], i + 1;
        } else {
          MergeBoth(a, b, i, j);
          var sum := Wrap64(p[i].value + q[j].value);
          if sum != 0 {
            MoveOn(temp, [Term(p[i].key, sum)], Sum(a[i + 1..], b[j + 1..]));
            temp := temp + [Term(p[i].key, sum)];
            hint := Summed;
          }
          i, j := i + 1, j + 1;
        }
      }
      SumEnd(a[i..], b[j..]);
      r := Finish(temp + p[i..] + q[j..]);
      assert temp + p[i..] + q[j..] == temp + (a[i..] + b[j..]);
    }

    // Overwrites its argument.
    method ScalarMult(v: array<Term>, scalar: int, affectHints: bool)
      modifies this`hint, v
      ensures v[..] == Scaled(old(v[..]), scalar)
    {
      hide Wrap64;
      var i := 0;
      while i < v.Length
        invariant i <= v.Length
        invariant forall k :: 0 <= k < i ==> v[k] == Term(old(v[k].key), Wrap64(scalar * old(v[k].value)))
        invariant forall k :: i <= k < v.Length ==> v[k] == old(v[k])
      {
        v[i] := Term(v[i].key, Wrap64(scalar * v[i].value));
        if hint == MakeBase && affectHints && v[i].key.RegKey? && hintBase == Some(v[i].key.n) {
          hint := NotBase;
        }
        i := i + 1;
      }
    }

    // What the part of the grammar parsed to evaluates to, with the position behind it.
    ghost function Outcome(r: Option<(Ast, nat)>): Option<(Vect, nat)> {
      if r.None? || Eval(r.value.0).None? then None else Some((Eval(r.value.0).value, r.value.1))
    }

    // The vector e, if any, is the outcome.
    ghost predicate Matches(e: array?<Term>, out: Option<(Vect, nat)>)
      reads this, e
    {
      if e == null then out.None? else out == Some((e[..], pos))
    }

    method Expr6() returns (e: array?<Term>)
      modifies this`pos, this`hint, this`hintBase
      ensures e != null ==> fresh(e)
      ensures Matches(e, Outcome(Parse6(tokens, old(pos))))
      decreases |tokens| - pos
    {
      match Tok(tokens, pos) {
        case Minus =>
          pos := pos + 1;
          e := Expr6();
          if e != null {
            ScalarMult(e, -1, false);
          }
        case Plus =>
          pos := pos + 1;
          e := Expr6();
        case NumTok(v) =>
          e := SingleTerm(Term(Simple, v));
          pos := pos + 1;
        case RegTok(n) =>
          e := SingleTerm(Term(RegKey(n), 1));
          if hint == NoHint {
            hintBase, hint := Some(n), MakeBase;
          }
          pos := pos + 1;
        case _ =>
          e := null;
      }
    }

    method Multiply(e: array<Term>, f: array<Term>) returns (r: array?<Term>)
      requires e != f
      modifies this`hint, e, f
      ensures r == null || r == e || r == f
      ensures
        var p := Product(old(e[..]), old(f[..]));
        if r == null then p.None? else p == Some(r[..])
    {
      var s := TestSimple(e);
      if s {
        var k := FindRelocValue(e);
        ScalarMult(f, k, true);
        return f;
      }
      s := TestSimple(f);
      if s {
        var k := FindRelocValue(f);
        ScalarMult(e, k, true);
        return e;
      }
      return null;
    }

    method Expr5() returns (e: array?<Term>)
      modifies this`pos, this`hint, this`hintBase
      ensures e != null ==> fresh(e)
      ensures Matches(e, Outcome(Parse5(tokens, old(pos))))
    {
      hide Product;
      ghost var start := pos;
      e := Expr6();
      if e == null {
        OutcomeRest5(start);
        return;
      }
      ghost var ast := Parse6(tokens, start).value.0;
      while Tok(tokens, pos) == Star
        invariant e != null && fresh(e) && pos <= |tokens|
        invariant Eval(ast) == Some(e[..])
        invariant Parse5(tokens, start) == Parse5Rest(tokens, pos, ast)
        decreases |tokens| - pos
      {
        ghost var at := pos;
        pos := pos + 1;
        var f := Expr6();
        if f == null {
          FailRest5(at, ast);
          return null;
        }
        ghost var right := Parse6(tokens, at + 1).value.0;
        var r := Multiply(e, f);
        ast := Mul(ast, right);
        if r == null {
          StuckRest5(pos, ast);
          return null;
        }
        e := r;
      }
    }

    method Expr4() returns (e: array?<Term>)
      modifies this`pos, this`hint, this`hintBase
      ensures e != null ==> fresh(e)
      ensures Matches(e, Outcome(Parse4(tokens, old(pos))))
    {
      hide Sum, Scaled, Parse5, Product;
      ghost var start := pos;
      e := Expr5();
      if e == null {
        OutcomeRest4(start);
        return;
      }
      ghost var ast := Parse5(tokens, start).value.0;
      while Tok(tokens, pos) == Plus || Tok(tokens, pos) == Minus
        invariant e != null && fresh(e) && pos <= |tokens|
        invariant Eval(ast) == Some(e[..])
        invariant Parse4(tokens, start) == Parse4Rest(tokens, pos, ast)
        decreases |tokens| - pos
      {
        ghost var at := pos;
        var op := Tok(tokens, pos);
        pos := pos + 1;
        var f := Expr5();
        if f == null {
          FailRest4(at, ast);
          return null;
        }
        ghost var right := Parse5(tokens, at + 1).value.0;
        if op == Plus {
          ast := Add(ast, right);
        } else {
          ScalarMult(f, -1, false);
          ast := Sub(ast, right);
        }
        e := AddVectors(e, f);
      }
    }

    // ---- A part that has no value leaves the whole without one ----

    lemma StuckRest5(i: nat, a: Ast)
      requires i <= |tokens| && Eval(a).None?
      ensures Outcome(Parse5Rest(tokens, i, a)).None?
      decreases |tokens| - i
    {
      if Tok(tokens, i) == Star {
        var r := Parse6(tokens, i + 1);
        if r.Some? {
          StuckRest5(r.value.1, Mul(a, r.value.0));
        }
      }
    }

    lemma FailRest5(i: nat, a: Ast)
      requires i <= |tokens| && Tok(tokens, i) == Star && Outcome(Parse6(tokens, i + 1)).None?
      ensures Outcome(Parse5Rest(tokens, i, a)).None?
    {
      var r := Parse6(tokens, i + 1);
      if r.Some? {
        StuckRest5(r.value.1, Mul(a, r.value.0));
      }
    }

    lemma OutcomeRest5(i: nat)
      requires Outcome(Parse6(tokens, i)).None?
      ensures Outcome(Parse5(tokens, i)).None?
    {
      var r := Parse6(tokens, i);
      if r.Some? {
        StuckRest5(r.value.1, r.value.0);
      }
    }

    lemma StuckRest4(i: nat, a: Ast)
      requires i <= |tokens| && Eval(a).None?
      ensures Outcome(Parse4Rest(tokens, i, a)).None?
      decreases |tokens| - i
    {
      if Tok(tokens, i) == Plus || Tok(tokens, i) == Minus {
        var r := Parse5(tokens, i + 1);
        if r.Some? {
          StuckRest4(r.value.1, if Tok(tokens, i) == Plus then Add(a, r.value.0) else Sub(a, r.value.0));
        }
      }
    }

    lemma FailRest4(i: nat, a: Ast)
      requires i <= |tokens| && (Tok(tokens, i) == Plus || Tok(tokens, i) == Minus)
      requires Outcome(Parse5(tokens, i + 1)).None?
      ensures Outcome(Parse4Rest(tokens, i, a)).None?
    {
      var r := Parse5(tokens, i + 1);
      if r.Some? {
        StuckRest4(r.value.1, if Tok(tokens, i) == Plus then Add(a, r.value.0) else Sub(a, r.value.0));
      }
    }

    lemma OutcomeRest4(i: nat)
      requires Outcome(Parse5(tokens, i)).None?
      ensures Outcome(Parse4(tokens, i)).None?
    {
      var r := Parse5(tokens, i);
      if r.Some? {
        StuckRest4(r.value.1, r.value.0);
      }
    }
  }

  // parse_mref on a fresh operand
  method ParseMref(e: array<Term>, table: RegTable) returns (r: Option<Parts>)
    ensures r == Gather(NO_PARTS, e[..], table)
  {
    hide Wrap64, Signed32;
    var b, i, s, o := None, None, 0, 0;
    var k := 0;
    while k < e.Length
      invariant k <= e.Length
      invariant Gather(NO_PARTS, e[..], table) == Gather(Parts(b, i, s, o), e[k..], table)
    {
      assert e[k..][1..] == e[k + 1..];
      match e[k].key {
        case RegKey(n) =>
          if IsGpr(table(n)) && e[k].value == 1 && b.None? {
            b := Some(n);
          } else if i.None? {
            i, s := Some(n), Signed32(e[k].value);
          } else {
            return None;
          }
        case Simple =>
          o := Wrap64(o + e[k].value);
      }
      k := k + 1;
    }
    return Some(Parts(b, i, s, o));
  }

  lemma MoveOn(temp: Vect, x: Vect, rest: Vect)
    ensures temp + (x + rest) == (temp + x) + rest
  {
  }

  lemma MergeRight(p: Vect, q: Vect, i: nat, j: nat)
    requires i < |p| && j < |q| && Before(q[j].key, p[i].key)
    ensures Sum(p[i..], q[j..]) == [q[j]] + Sum(p[i..], q[j + 1..])
  {
    assert q[j..][1..] == q[j + 1..];
  }

  lemma MergeLeft(p: Vect, q: Vect, i: nat, j: nat)
    requires i < |p| && j < |q| && !Before(q[j].key, p[i].key) && Before(p[i].key, q[j].key)
    ensures Sum(p[i..], q[j..]) == [p[i]] + Sum(p[i + 1..], q[j..])
  {
    assert p[i..][1..] == p[i + 1..];
  }

  lemma MergeBoth(p: Vect, q: Vect, i: nat, j: nat)
    requires i < |p| && j < |q| && !Before(q[j].key, p[i].key) && !Before(p[i].key, q[j].key)
    ensures
      var s := Wrap64(p[i].value + q[j].value);
      var rest := Sum(p[i + 1..], q[j + 1..]);
      Sum(p[i..], q[j..]) == if s != 0 then [Term(p[i].key, s)] + rest else rest
  {
    SameKey(p[i].key, q[j].key);
    SumUnfold(p[i..], q[j..]);
    assert p[i..][1..] == p[i + 1..] && q[j..][1..] == q[j + 1..];
  }

  lemma SumEnd(p: Vect, q: Vect)
    requires p == [] || q == []
    ensures Sum(p, q) == p + q
  {
    assert p == [] ==> p + q == q;
  }
}
