// Expressions over numbers and registers, and their sorted vectors.

module ExprSpec {
  import opened Common
  import opened X86

  // The type field of a vector term: a register number, or EXPR_SIMPLE for the plain number.
  datatype Key = RegKey(n: nat) | Simple

  predicate Before(a: Key, b: Key) {
    match (a, b)
    case (RegKey(m), RegKey(n)) => m < n
    case (RegKey(_), Simple) => true
    case (Simple, _) => false
  }

  datatype Term = Term(key: Key, value: int)

  type Vect = seq<Term>

  // 64-bit signed arithmetic wraps.
  function Wrap64(x: int): (r: int)
    ensures (r - x) % TWO64 == 0
    ensures -0x8000_0000_0000_0000 <= r < 0x8000_0000_0000_0000
  {
    if x % TWO64 < 0x8000_0000_0000_0000 then x % TWO64 else x % TWO64 - TWO64
  }

  // ---- Meaning ----

  datatype Ast =
    | Number(v: int)
    | Register(n: nat)
    | Neg(a: Ast)
    | Add(l: Ast, r: Ast)
    | Sub(l: Ast, r: Ast)
    | Mul(l: Ast, r: Ast)

  // Register contents by register number.
  type Env = nat -> int

  // Plain integer arithmetic.
  function Meaning(a: Ast, e: Env): int {
    match a
    case Number(v) => v
    case Register(n) => e(n)
    case Neg(b) => -Meaning(b, e)
    case Add(l, r) => Meaning(l, e) + Meaning(r, e)
    case Sub(l, r) => Meaning(l, e) - Meaning(r, e)
    case Mul(l, r) => Meaning(l, e) * Meaning(r, e)
  }

  // ---- Grammar ----
  // expr4 : expr5 { (+|-) expr5 }, expr5 : expr6 { * expr6 }, expr6 : (-|+) expr6 | number | register

  datatype Token = NumTok(v: int) | RegTok(n: nat) | Plus | Minus | Star | End

  function Tok(t: seq<Token>, i: nat): Token {
    if i < |t| then t[i] else End
  }

  function Parse6(t: seq<Token>, i: nat): (r: Option<(Ast, nat)>)
    ensures r.Some? ==> i < r.value.1 <= |t|
    decreases |t| - i
  {
    match Tok(t, i)
    case NumTok(v) => Some((Number(v), i + 1))
    case RegTok(n) => Some((Register(n), i + 1))
    case Minus =>
      var r := Parse6(t, i + 1);
      if r.None? then None else Some((Neg(r.value.0), r.value.1))
    case Plus => Parse6(t, i + 1)
    case _ => None
  }

  // The rest of a product whose left part is a.
  function Parse5Rest(t: seq<Token>, i: nat, a: Ast): (r: Option<(Ast, nat)>)
    requires i <= |t|
    ensures r.Some? ==> i <= r.value.1 <= |t|
    decreases |t| - i
  {
    if Tok(t, i) != Star then Some((a, i))
    else
      var r := Parse6(t, i + 1);
      if r.None? then None else Parse5Rest(t, r.value.1, Mul(a, r.value.0))
  }

  function Parse5(t: seq<Token>, i: nat): (r: Option<(Ast, nat)>)
    ensures r.Some? ==> i < r.value.1 <= |t|
  {
    var r := Parse6(t, i);
    if r.None? then None else Parse5Rest(t, r.value.1, r.value.0)
  }

  function Parse4Rest(t: seq<Token>, i: nat, a: Ast): (r: Option<(Ast, nat)>)
    requires i <= |t|
    ensures r.Some? ==> i <= r.value.1 <= |t|
    decreases |t| - i
  {
    if Tok(t, i) != Plus && Tok(t, i) != Minus then Some((a, i))
    else
      var r := Parse5(t, i + 1);
      if r.None? then None
      else Parse4Rest(t, r.value.1, if Tok(t, i) == Plus then Add(a, r.value.0) else Sub(a, r.value.0))
  }

  function Parse4(t: seq<Token>, i: nat): (r: Option<(Ast, nat)>)
    ensures r.Some? ==> i < r.value.1 <= |t|
  {
    var r := Parse5(t, i);
    if r.None? then None else Parse4Rest(t, r.value.1, r.value.0)
  }

  // ---- Vectors ----

  // Merges two vectors, adding the terms of one key and dropping a sum of zero.
  function Sum(p: Vect, q: Vect): Vect {
    if p == [] then q
    else if q == [] then p
    else if Before(q[0].key, p[0].key) then [q[0]] + Sum(p, q[1..])
    else if Before(p[0].key, q[0].key) then [p[0]] + Sum(p[1..], q)
    else
      var s := Wrap64(p[0].value + q[0].value);
      (if s != 0 then [Term(p[0].key, s)] else []) + Sum(p[1..], q[1..])
  }

  function Scaled(p: Vect, k: int): (r: Vect)
    ensures |r| == |p|
    ensures forall i :: 0 <= i < |p| ==> r[i] == Term(p[i].key, Wrap64(k * p[i].value))
  {
    seq(|p|, i requires 0 <= i < |p| => Term(p[i].key, Wrap64(k * p[i].value)))
  }

  function SkipZeros(p: Vect): (r: Vect)
    ensures r != [] ==> r[0].value != 0
    ensures |r| <= |p|
  {
    if p != [] && p[0].value == 0 then SkipZeros(p[1..]) else p
  }

  // No register has a nonzero coefficient.
  predicate IsSimple(p: Vect) {
    var r := SkipZeros(p);
    r == [] || (r[0].key == Simple && SkipZeros(r[1..]) == [])
  }

  function RelocValue(p: Vect): int {
    var r := SkipZeros(p);
    if r == [] then 0 else if r[0].key == Simple then r[0].value else 0
  }

  // None is the reported error "unable to multiply two non-scalar objects".
  function Product(p: Vect, q: Vect): Option<Vect> {
    if IsSimple(p) then Some(Scaled(q, RelocValue(p)))
    else if IsSimple(q) then Some(Scaled(p, RelocValue(q)))
    else None
  }

  function Eval(a: Ast): Option<Vect> {
    match a
    case Number(v) => Some([Term(Simple, v)])
    case Register(n) => Some([Term(RegKey(n), 1)])
    case Neg(b) =>
      var p := Eval(b);
      if p.None? then None else Some(Scaled(p.value, -1))
    case Add(l, r) =>
      var (p, q) := (Eval(l), Eval(r));
      if p.None? || q.None? then None else Some(Sum(p.value, q.value))
    case Sub(l, r) =>
      var (p, q) := (Eval(l), Eval(r));
      if p.None? || q.None? then None else Some(Sum(p.value, Scaled(q.value, -1)))
    case Mul(l, r) =>
      var (p, q) := (Eval(l), Eval(r));
      if p.None? || q.None? then None else Product(p.value, q.value)
  }

  // ---- What a vector denotes ----

  function KeyValue(k: Key, e: Env): int {
    if k.Simple? then 1 else e(k.n)
  }

  function Denotes(p: Vect, e: Env): int {
    if p == [] then 0 else p[0].value * KeyValue(p[0].key, e) + Denotes(p[1..], e)
  }

  predicate Sorted(p: Vect) {
    forall i, j :: 0 <= i < j < |p| ==> Before(p[i].key, p[j].key)
  }

  ghost predicate Same64(x: int, y: int) {
    exists k: int :: x - y == k * TWO64
  }

  lemma SameBy(x: int, y: int, k: int)
    requires x - y == k * TWO64
    ensures Same64(x, y)
  {
  }

  lemma SameAdd(a: int, b: int, c: int, d: int)
    requires Same64(a, b) && Same64(c, d)
    ensures Same64(a + c, b + d) && Same64(a - c, b - d) && Same64(-a, -b)
  {
    var k :| a - b == k * TWO64;
    var l :| c - d == l * TWO64;
    SameBy(a + c, b + d, k + l);
    SameBy(a - c, b - d, k - l);
    SameBy(-a, -b, -k);
  }

  lemma SameMul(a: int, b: int, c: int, d: int)
    requires Same64(a, b) && Same64(c, d)
    ensures Same64(a * c, b * d)
  {
    var k :| a - b == k * TWO64;
    var l :| c - d == l * TWO64;
    assert a * c - b * d == (k * c + b * l) * TWO64;
    SameBy(a * c, b * d, k * c + b * l);
  }

  lemma SameTrans(a: int, b: int, c: int)
    requires Same64(a, b) && Same64(b, c)
    ensures Same64(a, c)
  {
    var k :| a - b == k * TWO64;
    var l :| b - c == l * TWO64;
    SameBy(a, c, k + l);
  }

  lemma WrapSame(x: int)
    ensures Same64(Wrap64(x), x)
  {
    SameBy(Wrap64(x), x, (Wrap64(x) - x) / TWO64);
  }

  lemma {:induction false} ScaledDenotes(p: Vect, k: int, e: Env)
    ensures Same64(Denotes(Scaled(p, k), e), k * Denotes(p, e))
  {
    hide Wrap64, Same64;
    if p == [] {
      SameBy(0, 0, 0);
    } else {
      var x, y := p[0].value, KeyValue(p[0].key, e);
      assert Scaled(p, k)[1..] == Scaled(p[1..], k);
      ScaledDenotes(p[1..], k, e);
      WrapSame(k * x);
      SameBy(y, y, 0);
      SameMul(Wrap64(k * x), k * x, y, y);
      SameAdd(Wrap64(k * x) * y, k * x * y, Denotes(Scaled(p[1..], k), e), k * Denotes(p[1..], e));
      Distribute(k, x, y, Denotes(p[1..], e));
    }
  }

  lemma Distribute(k: int, x: int, y: int, d: int)
    ensures k * x * y + k * d == k * (x * y + d)
  {
  }

  lemma {:induction false} SumDenotes(p: Vect, q: Vect, e: Env)
    ensures Same64(Denotes(Sum(p, q), e), Denotes(p, e) + Denotes(q, e))
    decreases |p| + |q|, 1
  {
    hide Wrap64, Before, Same64;
    if p == [] || q == [] {
      SameBy(Denotes(Sum(p, q), e), Denotes(p, e) + Denotes(q, e), 0);
    } else {
      var x, y := p[0].value * KeyValue(p[0].key, e), q[0].value * KeyValue(q[0].key, e);
      SameBy(x, x, 0);
      SameBy(y, y, 0);
      if Before(q[0].key, p[0].key) {
        SumDenotes(p, q[1..], e);
        assert Sum(p, q)[1..] == Sum(p, q[1..]);
        SameAdd(y, y, Denotes(Sum(p, q[1..]), e), Denotes(p, e) + Denotes(q[1..], e));
      } else if Before(p[0].key, q[0].key) {
        SumDenotes(p[1..], q, e);
        assert Sum(p, q)[1..] == Sum(p[1..], q);
        SameAdd(x, x, Denotes(Sum(p[1..], q), e), Denotes(p[1..], e) + Denotes(q, e));
      } else {
        SumSameKey(p, q, e);
      }
    }
  }

  lemma SameKey(a: Key, b: Key)
    requires !Before(a, b) && !Before(b, a)
    ensures a == b
  {
  }

  lemma SumUnfold(p: Vect, q: Vect)
    requires p != [] && q != [] && p[0].key == q[0].key
    ensures
      var s := Wrap64(p[0].value + q[0].value);
      Sum(p, q) == if s != 0 then [Term(p[0].key, s)] + Sum(p[1..], q[1..]) else Sum(p[1..], q[1..])
  {
    assert [] + Sum(p[1..], q[1..]) == Sum(p[1..], q[1..]);
  }

  lemma DenotesCons(t: Term, r: Vect, e: Env)
    ensures Denotes([t] + r, e) == t.value * KeyValue(t.key, e) + Denotes(r, e)
  {
    assert ([t] + r)[1..] == r;
  }

  lemma {:induction false} SumSameKey(p: Vect, q: Vect, e: Env)
    requires p != [] && q != [] && !Before(p[0].key, q[0].key) && !Before(q[0].key, p[0].key)
    ensures Same64(Denotes(Sum(p, q), e), Denotes(p, e) + Denotes(q, e))
    decreases |p| + |q|, 0
  {
    hide Wrap64, Before, Same64, Sum, KeyValue;
    SameKey(p[0].key, q[0].key);
    var w, x, y := KeyValue(p[0].key, e), p[0].value, q[0].value;
    var s := Wrap64(x + y);
    WrapSame(x + y);
    SameRefl(w);
    SameMul(s, x + y, w, w);
    var r := Sum(p[1..], q[1..]);
    SumDenotes(p[1..], q[1..], e);
    SameAdd(s * w, (x + y) * w, Denotes(r, e), Denotes(p[1..], e) + Denotes(q[1..], e));
    Distribute2(x, y, w);
    SumUnfold(p, q);
    DenotesCons(Term(p[0].key, s), r, e);
  }

  lemma SameRefl(x: int)
    ensures Same64(x, x)
  {
    SameBy(x, x, 0);
  }

  lemma Distribute2(x: int, y: int, w: int)
    ensures (x + y) * w == x * w + y * w
  {
  }

  lemma {:induction false} SkipZerosDenotes(p: Vect, e: Env)
    ensures Denotes(SkipZeros(p), e) == Denotes(p, e)
  {
    if p != [] && p[0].value == 0 {
      SkipZerosDenotes(p[1..], e);
    }
  }

  lemma SimpleDenotes(p: Vect, e: Env)
    requires IsSimple(p)
    ensures Denotes(p, e) == RelocValue(p)
  {
    SkipZerosDenotes(p, e);
    var r := SkipZeros(p);
    if r != [] {
      SkipZerosDenotes(r[1..], e);
    }
  }

  // ---- Sortedness ----

  predicate Above(k: Key, p: Vect) {
    forall i :: 0 <= i < |p| ==> Before(k, p[i].key)
  }

  lemma SortedTail(p: Vect)
    requires Sorted(p) && p != []
    ensures Sorted(p[1..]) && Above(p[0].key, p[1..])
  {
  }

  lemma SortedCons(t: Term, p: Vect)
    requires Sorted(p) && Above(t.key, p)
    ensures Sorted([t] + p)
  {
    var r := [t] + p;
    forall i, j | 0 <= i < j < |r| ensures Before(r[i].key, r[j].key) {
      if i > 0 {
        assert r[i] == p[i - 1] && r[j] == p[j - 1];
      }
    }
  }

  lemma AboveCons(k: Key, t: Term, p: Vect)
    requires Before(k, t.key) && Above(k, p)
    ensures Above(k, [t] + p)
  {
  }

  lemma AboveTrans(j: Key, k: Key, p: Vect)
    requires Before(j, k) && Above(k, p)
    ensures Above(j, p)
  {
  }

  lemma {:induction false} SumAbove(p: Vect, q: Vect, k: Key)
    requires Above(k, p) && Above(k, q)
    ensures Above(k, Sum(p, q))
  {
    hide Wrap64;
    if p != [] && q != [] {
      assert Above(k, p[1..]) && Above(k, q[1..]);
      if Before(q[0].key, p[0].key) {
        SumAbove(p, q[1..], k);
      } else if Before(p[0].key, q[0].key) {
        SumAbove(p[1..], q, k);
      } else {
        SumAbove(p[1..], q[1..], k);
      }
    }
  }

  lemma {:induction false} SumSorted(p: Vect, q: Vect)
    requires Sorted(p) && Sorted(q)
    ensures Sorted(Sum(p, q))
  {
    hide Wrap64, Sorted, Above, Before;
    if p != [] && q != [] {
      SortedTail(p);
      SortedTail(q);
      AboveWhole(p);
      AboveWhole(q);
      if Before(q[0].key, p[0].key) {
        SumSorted(p, q[1..]);
        AboveAll(q[0].key, p);
        SumAbove(p, q[1..], q[0].key);
        SortedCons(q[0], Sum(p, q[1..]));
      } else if Before(p[0].key, q[0].key) {
        SumSorted(p[1..], q);
        AboveAll(p[0].key, q);
        SumAbove(p[1..], q, p[0].key);
        SortedCons(p[0], Sum(p[1..], q));
      } else {
        SameKey(p[0].key, q[0].key);
        SumSorted(p[1..], q[1..]);
        SumAbove(p[1..], q[1..], p[0].key);
        var s := Wrap64(p[0].value + q[0].value);
        SortedCons(Term(p[0].key, s), Sum(p[1..], q[1..]));
        assert [] + Sum(p[1..], q[1..]) == Sum(p[1..], q[1..]);
      }
    }
  }

  lemma AboveWhole(p: Vect)
    requires p != []
    ensures p == [p[0]] + p[1..]
  {
  }

  lemma AboveAll(k: Key, p: Vect)
    requires p != [] && Before(k, p[0].key) && Above(p[0].key, p[1..])
    ensures Above(k, p)
  {
    AboveTrans(k, p[0].key, p[1..]);
    AboveCons(k, p[0], p[1..]);
    assert p == [p[0]] + p[1..];
  }

  lemma ScaledSorted(p: Vect, k: int)
    requires Sorted(p)
    ensures Sorted(Scaled(p, k))
  {
  }

  // Main result for expressions: the vector is strictly sorted and denotes, for every register contents,
  // the value of the expression in plain arithmetic, modulo 2^64.
  lemma {:induction false} EvalDenotes(a: Ast, e: Env)
    requires Eval(a).Some?
    ensures Sorted(Eval(a).value) && Same64(Denotes(Eval(a).value, e), Meaning(a, e))
  {
    hide Wrap64, Sum, Scaled, Same64, Sorted, IsSimple, RelocValue;
    SameRefl(-1);
    match a {
      case Number(v) =>
        Singleton(Term(Simple, v), e);
      case Register(n) =>
        Singleton(Term(RegKey(n), 1), e);
      case Neg(b) =>
        EvalDenotes(b, e);
        ScaledBy(Eval(b).value, -1, -1, Meaning(b, e), e);
      case Add(l, r) =>
        EvalDenotes(l, e);
        EvalDenotes(r, e);
        var p, q := Eval(l).value, Eval(r).value;
        SumSorted(p, q);
        SumDenotes(p, q, e);
        SameAdd(Denotes(p, e), Meaning(l, e), Denotes(q, e), Meaning(r, e));
        SameTrans(Denotes(Sum(p, q), e), Denotes(p, e) + Denotes(q, e), Meaning(a, e));
      case Sub(l, r) =>
        EvalDenotes(l, e);
        EvalDenotes(r, e);
        var p, q := Eval(l).value, Eval(r).value;
        ScaledBy(q, -1, -1, Meaning(r, e), e);
        SumSorted(p, Scaled(q, -1));
        SumDenotes(p, Scaled(q, -1), e);
        SameAdd(Denotes(p, e), Meaning(l, e), Denotes(Scaled(q, -1), e), -1 * Meaning(r, e));
        SameTrans(Denotes(Sum(p, Scaled(q, -1)), e), Denotes(p, e) + Denotes(Scaled(q, -1), e), Meaning(a, e));
      case Mul(l, r) =>
        EvalDenotes(l, e);
        EvalDenotes(r, e);
        var p, q := Eval(l).value, Eval(r).value;
        if IsSimple(p) {
          SimpleDenotes(p, e);
          ScaledBy(q, RelocValue(p), Meaning(l, e), Meaning(r, e), e);
        } else {
          SimpleDenotes(q, e);
          ScaledBy(p, RelocValue(q), Meaning(r, e), Meaning(l, e), e);
        }
    }
  }

  lemma Singleton(t: Term, e: Env)
    ensures Sorted([t]) && Denotes([t], e) == t.value * KeyValue(t.key, e)
    ensures Same64(Denotes([t], e), t.value * KeyValue(t.key, e))
  {
    SameBy(t.value * KeyValue(t.key, e), t.value * KeyValue(t.key, e), 0);
  }

  lemma ScaledBy(p: Vect, k: int, mk: int, mp: int, e: Env)
    requires Sorted(p) && Same64(k, mk) && Same64(Denotes(p, e), mp)
    ensures Sorted(Scaled(p, k)) && Same64(Denotes(Scaled(p, k), e), mk * mp)
  {
    hide Same64, Scaled;
    ScaledSorted(p, k);
    ScaledDenotes(p, k, e);
    SameMul(k, mk, Denotes(p, e), mp);
    SameTrans(Denotes(Scaled(p, k), e), k * Denotes(p, e), mk * mp);
  }
}
