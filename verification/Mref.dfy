// From the expression in the brackets to the address the processor will use.

module Mref {
  import opened Common
  import opened X86
  import opened EaSpec
  import opened EaRoundTrip
  import opened ExprSpec
  import opened ExprText
  import opened ExprAccept

  // Register numbers to registers; the generated tables.
  type RegTable = nat -> Reg

  // Contents by register number.
  function EnvOf(table: RegTable, v: RegFile): Env {
    (n: nat) => v(table(n))
  }

  function IsGpr(r: Reg): bool {
    r.cls.Gpr8? || r.cls.High8? || r.cls.Gpr16? || r.cls.Gpr32? || r.cls.Gpr64?
  }

  // Base, index, scale and offset gathered so far.
  datatype Parts = Parts(b: Option<nat>, i: Option<nat>, s: int, o: int)

  const NO_PARTS := Parts(None, None, 0, 0)

  // None is one of the reported errors "invalid effective address".
  function AddTerm(p: Parts, t: Term, table: RegTable): Option<Parts> {
    match t.key
    case Simple => Some(p.(o := Wrap64(p.o + t.value)))
    case RegKey(n) =>
      if IsGpr(table(n)) && t.value == 1 && p.b.None? then Some(p.(b := Some(n)))
      else if p.i.None? then Some(p.(i := Some(n), s := Signed32(t.value)))
      else None
  }

  function Gather(p: Parts, v: Vect, table: RegTable): Option<Parts>
    decreases |v|
  {
    if v == [] then Some(p)
    else
      var q := AddTerm(p, v[0], table);
      if q.None? then None else Gather(q.value, v[1..], table)
  }

  // The operand the parts make; flags, hints and sizes come from elsewhere.
  predicate Made(m: MemOp, p: Parts, table: RegTable) {
    && m.base == (if p.b.Some? then Some(table(p.b.value)) else None)
    && m.index == (if p.i.Some? then Some(table(p.i.value)) else None)
    && m.scale == p.s && m.offset == p.o
  }

  // ---- Which vectors can be split ----

  function Registers(v: Vect): nat {
    if v == [] then 0 else (if v[0].key.RegKey? then 1 else 0) + Registers(v[1..])
  }

  // A general register taken once can be the base.
  predicate CanBeBase(t: Term, table: RegTable) {
    t.key.RegKey? && t.value == 1 && IsGpr(table(t.key.n))
  }

  function Bases(v: Vect, table: RegTable): nat {
    if v == [] then 0 else (if CanBeBase(v[0], table) then 1 else 0) + Bases(v[1..], table)
  }

  lemma {:induction false} BasesAreRegisters(v: Vect, table: RegTable)
    ensures Bases(v, table) <= Registers(v)
  {
    if v != [] {
      BasesAreRegisters(v[1..], table);
    }
  }

  // There is room for two registers, and one of two must be fit for a base.
  predicate Room(base: bool, index: bool, registers: nat, bases: nat) {
    if base && index then registers <= 1 || (registers == 2 && bases > 0)
    else if index then registers <= 1
    else if base then registers <= 1 && bases == registers
    else registers == 0
  }

  lemma {:induction false} GatherAccepts(p: Parts, v: Vect, table: RegTable)
    ensures Gather(p, v, table).Some? <==> Room(p.b.None?, p.i.None?, Registers(v), Bases(v, table))
    decreases |v|
  {
    hide Wrap64, Signed32;
    if v != [] {
      BasesAreRegisters(v[1..], table);
      var q := AddTerm(p, v[0], table);
      if q.Some? {
        GatherAccepts(q.value, v[1..], table);
      }
    }
  }

  // ---- The split keeps the value ----

  ghost predicate Same32(x: int, y: int) {
    exists k: int :: x - y == k * TWO32
  }

  lemma Same32By(x: int, y: int, k: int)
    requires x - y == k * TWO32
    ensures Same32(x, y)
  {
  }

  lemma Same32Trans(a: int, b: int, c: int)
    requires Same32(a, b) && Same32(b, c)
    ensures Same32(a, c)
  {
    var k :| a - b == k * TWO32;
    var l :| b - c == l * TWO32;
    Same32By(a, c, k + l);
  }

  lemma Narrow(x: int, y: int)
    requires Same64(x, y)
    ensures Same32(x, y)
  {
    var k :| x - y == k * TWO64;
    Same32By(x, y, k * TWO32);
  }

  function PartsValue(p: Parts, e: Env): int {
    p.o + (if p.b.Some? then e(p.b.value) else 0) + (if p.i.Some? then p.s * e(p.i.value) else 0)
  }

  lemma AddTermKeeps(p: Parts, t: Term, table: RegTable, e: Env)
    requires AddTerm(p, t, table).Some?
    ensures Same32(PartsValue(AddTerm(p, t, table).value, e), PartsValue(p, e) + t.value * KeyValue(t.key, e))
  {
    hide Wrap64, Signed32;
    match t.key {
      case Simple =>
        var w := Wrap64(p.o + t.value);
        var k := (w - (p.o + t.value)) / TWO64;
        Same32By(PartsValue(p.(o := w), e), PartsValue(p, e) + t.value, k * TWO32);
      case RegKey(n) =>
        var q := AddTerm(p, t, table).value;
        if q.i == p.i && q.b == Some(n) && p.b.None? {
          Same32By(PartsValue(q, e), PartsValue(p, e) + t.value * e(n), 0);
        } else {
          var k := (Signed32(t.value) - t.value) / TWO32;
          CutScale(Signed32(t.value), t.value, e(n), k);
          Same32By(PartsValue(q, e), PartsValue(p, e) + t.value * e(n), k * e(n));
        }
    }
  }

  lemma CutScale(s: int, v: int, x: int, k: int)
    requires s - v == k * TWO32
    ensures s * x - v * x == k * x * TWO32
  {
  }

  lemma {:induction false} GatherKeeps(p: Parts, v: Vect, table: RegTable, e: Env)
    requires Gather(p, v, table).Some?
    ensures Same32(PartsValue(Gather(p, v, table).value, e), PartsValue(p, e) + Denotes(v, e))
    decreases |v|
  {
    hide AddTerm, PartsValue, Same32, KeyValue;
    if v == [] {
      Same32By(PartsValue(p, e), PartsValue(p, e) + Denotes(v, e), 0);
    } else {
      var q := AddTerm(p, v[0], table).value;
      AddTermKeeps(p, v[0], table, e);
      GatherKeeps(q, v[1..], table, e);
      Same32Plus(PartsValue(q, e), PartsValue(p, e) + v[0].value * KeyValue(v[0].key, e), Denotes(v[1..], e));
      Same32Trans(PartsValue(Gather(q, v[1..], table).value, e), PartsValue(q, e) + Denotes(v[1..], e),
                  PartsValue(p, e) + Denotes(v, e));
    }
  }

  lemma Same32Plus(a: int, b: int, c: int)
    requires Same32(a, b)
    ensures Same32(a + c, b + c)
  {
    var k :| a - b == k * TWO32;
    Same32By(a + c, b + c, k);
  }

  lemma MadeLinear(m: MemOp, p: Parts, table: RegTable, v: RegFile)
    requires Made(m, p, table)
    ensures Linear(m, v) == PartsValue(p, EnvOf(table, v))
  {
  }

  // The address written, the vector, the split operand.
  lemma WrittenAddress(a: Ast, p: Parts, m: MemOp, table: RegTable, v: RegFile)
    requires Eval(a).Some? && Gather(NO_PARTS, Eval(a).value, table) == Some(p) && Made(m, p, table)
    ensures Same32(Linear(m, v), Meaning(a, EnvOf(table, v)))
  {
    hide Gather, Made, Denotes, Same32, Same64, Eval;
    var e := EnvOf(table, v);
    EvalDenotes(a, e);
    Narrow(Denotes(Eval(a).value, e), Meaning(a, e));
    GatherKeeps(NO_PARTS, Eval(a).value, table, e);
    MadeLinear(m, p, table, v);
    assert PartsValue(NO_PARTS, e) == 0;
    Same32Trans(PartsValue(p, e), Denotes(Eval(a).value, e), Meaning(a, e));
  }

  lemma Same32Width(x: int, y: int, addrbits: nat)
    requires Same32(x, y)
    ensures Congruent(x, y, Width(addrbits))
  {
    var k :| x - y == k * TWO32;
    if addrbits == 16 {
      assert x - y == (k * TWO16) * TWO16;
      MultipleMod(k * TWO16);
    } else {
      MultipleMod32(k);
    }
  }

  lemma MultipleMod(k: int)
    ensures (k * TWO16) % TWO16 == 0
  {
  }

  lemma MultipleMod32(k: int)
    ensures (k * TWO32) % TWO32 == 0
  {
  }

  lemma CongruentTrans(a: int, b: int, c: int, addrbits: nat)
    requires Congruent(a, b, Width(addrbits)) && Congruent(b, c, Width(addrbits))
    ensures Congruent(a, c, Width(addrbits))
  {
    if addrbits == 16 {
      var k, l := (a - b) / TWO16, (b - c) / TWO16;
      assert a - c == (k + l) * TWO16;
      MultipleMod(k + l);
    } else {
      var k, l := (a - b) / TWO32, (b - c) / TWO32;
      assert a - c == (k + l) * TWO32;
      MultipleMod32(k + l);
    }
  }

  // What the evaluator makes of a whole text.
  function Evaluated(t: seq<Token>): Option<Vect> {
    var a := Parse4(t, 0);
    if a.None? then None else Eval(a.value.0)
  }

  // It is a vector, which the operand can be made of, exactly if no product multiplies two registers and what is left
  // of them finds room.
  lemma TextAccepted(t: seq<Token>, first: seq<Factor>, ps: seq<Signed>, table: RegTable)
    requires first != [] && Products(ps) && t == SumTokens(first, ps) && InRange(first) && AllInRange(ps)
    ensures Evaluated(t).Some? <==> Scalar(first) && AllScalar(ps)
    ensures
      Evaluated(t).Some? ==>
        var v := Evaluated(t).value;
        Gather(NO_PARTS, v, table).Some? <==> Registers(v) <= 1 || (Registers(v) == 2 && Bases(v, table) > 0)
  {
    hide Gather, Eval, Parse4, Scalar, AllScalar, InRange;
    assert t[0..|t|] == t;
    SumAccepted(t, 0, first, ps);
    if Evaluated(t).Some? {
      GatherAccepts(NO_PARTS, Evaluated(t).value, table);
    }
  }

  // End to end: whatever flags and hints the operand carries, the address that the emitted bytes decode to is the
  // sum of signed products written in the brackets, modulo the address size, if and only if the displacement fits.
  lemma TextToAddress(t: seq<Token>, first: seq<Factor>, ps: seq<Signed>, table: RegTable, p: Parts, m: MemOp,
                      addrbits: nat, rfield: nat, ea: Ea, data: seq<byte>, pos: nat, segsize: nat, v: RegFile)
    requires first != [] && Products(ps) && t == SumTokens(first, ps)
    requires Evaluated(t).Some? && Gather(NO_PARTS, Evaluated(t).value, table) == Some(p) && Made(m, p, table)
    requires EaOf(m, addrbits, rfield) == Some(ea) && RegsOk(m) && SizeFits(m, addrbits)
    requires !(PureOffset(m) && m.flags.sib && addrbits == 16)
    requires Tail(data, pos, ea, m.offset)
    ensures
      var d := DecodeEa(data, pos, ea.modrm, addrbits, segsize, ea.rexX, ea.rexB);
      && d.Memory? && d.next == pos + EaSize(ea) - 1
      && (Congruent(Linear(d.op, v), SumValue(first, ps, EnvOf(table, v)), Width(addrbits))
          <==> DisplacementFits(m, addrbits))
  {
    hide Gather, Made, EaOf, DecodeEa, Tail, Eval, Parse4, Congruent, DisplacementFits, Linear, Same32, SumValue;
    var a := Parse4(t, 0).value.0;
    assert t[0..|t|] == t;
    ReadsSum(t, 0, first, ps);
    WrittenAddress(a, p, m, table, v);
    Same32Width(Linear(m, v), Meaning(a, EnvOf(table, v)), addrbits);
    AddressRoundTrip(m, addrbits, rfield, ea, data, pos, segsize, v);
    var d := DecodeEa(data, pos, ea.modrm, addrbits, segsize, ea.rexX, ea.rexB);
    CongruentEither(Linear(d.op, v), Linear(m, v), Meaning(a, EnvOf(table, v)), addrbits);
  }

  // Numbers of one residue are congruent to the same numbers.
  lemma CongruentEither(x: int, y: int, z: int, addrbits: nat)
    requires Congruent(y, z, Width(addrbits))
    ensures Congruent(x, y, Width(addrbits)) <==> Congruent(x, z, Width(addrbits))
  {
    if Congruent(x, y, Width(addrbits)) {
      CongruentTrans(x, y, z, addrbits);
    }
    if Congruent(x, z, Width(addrbits)) {
      CongruentSymmetric(y, z, addrbits);
      CongruentTrans(x, z, y, addrbits);
    }
  }

  lemma CongruentSymmetric(y: int, z: int, addrbits: nat)
    requires Congruent(y, z, Width(addrbits))
    ensures Congruent(z, y, Width(addrbits))
  {
  }
}
