// How the disassembler reads one bytecode.

module TemplateRead {
  import opened Common
  import opened Arithmetic
  import opened X86
  import opened EaSpec
  import opened EaRoundTrip
  import opened TemplateSpec
  import opened TemplateScan

  // What one bytecode stores into the operands.
  datatype Write =
    | RegWrite(op: nat, num: nat)
    | OffsetWrite(op: nat, value: int)
    | EaWrite(op: nat, ea: Decoded)
    | CondWrite(cond: nat)

  datatype Read = Mismatch | Match(writes: seq<Write>, next: nat)

  // What `matches` keeps between the bytecodes: the operand size, whether LOCK has been taken for REX.R, the
  // prefixes that no bytecode has accounted for yet, and whether the size prefixes have been.
  datatype State = State(osize: nat, rexR: bool, lock: bool, rep: byte, wait: bool, oUsed: bool, aUsed: bool)

  function StartState(f: Scanned): State {
    State(f.sizes.osize, false, f.lock, f.rep, f.wait, false, false)
  }

  function LittleValue(data: seq<byte>, pos: nat, n: nat): nat {
    if n == 1 then At(data, pos) else if n == 2 then Word(data, pos) else if n == 4 then Dword(data, pos)
    else if n == 8 then Dword(data, pos) + TWO32 * Dword(data, pos + 4) else 0
  }

  function SignedValue(data: seq<byte>, pos: nat, n: nat): int {
    var x := LittleValue(data, pos, n);
    if n == 1 then Signed8(x) else if n == 2 then Signed16(x) else Signed32(x)
  }

  function ReadEa(data: seq<byte>, pos: nat, f: Scanned): Decoded {
    DecodeEa(data, pos + 1, At(data, pos), f.sizes.asize, 32, false, false)
  }

  // Bytecodes that look at the prefixes only.
  predicate ReadsNothing(it: Item) {
    it.Fixed? || it.AddrA16? || it.SetOsize? || it.SetRep? || it.SetWait? || it.ForceW? || it.NoForceW? || it.NoHigh?
    || it.LockRex? || it.Silent?
  }

  // Whether such a bytecode is content with the prefixes.  The first byte of the instruction has the prefixes
  // before it, so a mandatory one has been scanned there.
  predicate Passes(it: Item, f: Scanned, s: State) {
    var osp, asp := f.sizes.osize == 16, f.sizes.asize == 16;
    match it
    case Fixed(c) =>
      if c == 218 then f.rep == 0xF2
      else if c == 219 then f.rep == 0xF3
      else if c == 241 then osp && f.rep == 0
      else if c == 246 then osp
      else c == 247 && asp
    case AddrA16 => asp
    case SetOsize(o) => (o.O16? && s.osize == 16) || (o.O32? && s.osize == 32)
    case SetWait => f.wait
    case ForceW => s.osize == 64
    case Silent(c) =>
      if c == 201 || c == 202 then !asp
      else if c == 210 then s.osize == 32
      else if c == 214 then f.rep != 0xF3
      else if c == 217 then f.rep == 0
      else if c == 240 then !osp && f.rep == 0
      else if c == 244 then !osp
      else if c == 245 then !asp
      else c < 192 || c > 195
    case _ => true
  }

  // What a bytecode that matched leaves behind.
  function After(it: Item, s: State): State {
    match it
    case Fixed(c) =>
      if c == 218 || c == 219 then s.(rep := 0) else if c == 247 then s.(aUsed := true) else s.(oUsed := true)
    case AddrA16 => s.(aUsed := true)
    case SetOsize(_) => s.(oUsed := true)
    case SetWait => s.(wait := false)
    case ForceW => s.(oUsed := true)
    case NoForceW => s.(osize := 64, oUsed := true)
    case LockRex => if s.lock then s.(rexR := true, lock := false) else s
    case Silent(c) => if c == 201 || c == 202 then s.(aUsed := true) else if c == 210 then s.(oUsed := true) else s
    case _ => s
  }

  function High(s: State): nat {
    if s.rexR then 8 else 0
  }

  function SizeRead(s: State): nat {
    if s.osize == 32 then 4 else 2
  }

  // One bytecode against the data at pos.
  function ReadItem(it: Item, data: seq<byte>, pos: nat, f: Scanned, s: State): Read {
    var d := At(data, pos);
    match it
    case Literal(b) => if Slice(data, pos, |b|) == b then Match([], pos + |b|) else Mismatch
    case PlusReg(op, t) => if d < t || d > t + 7 then Mismatch else Match([RegWrite(op, d - t)], pos + 1)
    case Imm(op, n) => Match([OffsetWrite(op, LittleValue(data, pos, n))], pos + n)
    case ImmSext(op, n) => Match([OffsetWrite(op, SignedValue(data, pos, n))], pos + n)
    case ImmBySize(op) => Match([OffsetWrite(op, LittleValue(data, pos, SizeRead(s)))], pos + SizeRead(s))
    case MemOffset(op) =>
      var n := if f.sizes.asize == 16 then 2 else 4;
      Match([OffsetWrite(op, LittleValue(data, pos, n))], pos + n)
    case Rel(op, n) => Match([OffsetWrite(op, SignedValue(data, pos, n))], pos + n)
    case RelBySize(op) => Match([OffsetWrite(op, SignedValue(data, pos, SizeRead(s)))], pos + SizeRead(s))
    case RegMem(r, m) =>
      var e := ReadEa(data, pos, f);
      Match([EaWrite(m, e), RegWrite(r, d / 8 % 8 + High(s))], e.next)
    case RegField(op, t) =>
      if d / 64 != t / 64 || d % 8 != t % 8 then Mismatch else Match([RegWrite(op, d / 8 % 8 + High(s))], pos + 1)
    case Digit(x, m) =>
      if d / 8 % 8 != x then Mismatch
      else
        var e := ReadEa(data, pos, f);
        Match([EaWrite(m, e)], e.next)
    case Cond(t) => if d < t || d > t + 15 then Mismatch else Match([CondWrite(d - t)], pos + 1)
    case _ => if Passes(it, f, s) then Match([], pos) else Mismatch
  }

  // What every bytecode stored, the index behind the last one and what is left; None for no match.
  function ReadItems(items: seq<Item>, data: seq<byte>, pos: nat, f: Scanned, s: State)
    : Option<(seq<seq<Write>>, nat, State)>
  {
    if items == [] then Some(([], pos, s))
    else
      match ReadItem(items[0], data, pos, f, s)
      case Mismatch => None
      case Match(w, next) =>
        var r := ReadItems(items[1..], data, next, f, After(items[0], s));
        if r.None? then None else Some(([w] + r.value.0, r.value.1, r.value.2))
  }

  // The prefixes that are shown with the instruction.  Every operand counts as a use of the address size.
  datatype Left = Left(wait: bool, rep: byte, lock: bool, osize16: bool, asize16: bool)

  function Leftover(operands: nat, f: Scanned, s: State): Left {
    Left(s.wait, s.rep, s.lock, !s.oUsed && s.osize == 16, !s.aUsed && operands == 0 && f.sizes.asize == 16)
  }

  // `matches`, with the number of operands of the template.
  function ReadInsn(items: seq<Item>, operands: nat, data: seq<byte>, pos: nat, f: Scanned)
    : Option<(seq<seq<Write>>, nat, Left)>
  {
    var r := ReadItems(items, data, pos, f, StartState(f));
    if r.None? || f.escape then None else Some((r.value.0, r.value.1, Leftover(operands, f, r.value.2)))
  }

  // ---- What reading back is to mean ----

  function Pow256(n: nat): (r: nat)
    ensures r > 0
  {
    if n == 1 then 0x100 else if n == 2 then 0x1_0000 else if n == 4 then TWO32 else if n == 8 then TWO64 else 1
  }

  // A value read from n bytes stands for x.
  predicate StandsFor(value: int, x: int, n: nat) {
    (value - x) % Pow256(n) == 0
  }

  // A register, the address of a memory operand for every register file, or an absolute address.
  ghost predicate EaAgrees(d: Decoded, o: Operand, addrSize: nat) {
    match o
    case RegOp(r) => d.Direct? && d.reg == r.num
    case MemRef(m) =>
      d.Memory? && forall v: RegFile :: Congruent(Linear(d.op, v), Linear(m, v), Width(addrSize))
    case ImmOp(x, _, _, _) => d.Memory? && forall v: RegFile :: Congruent(Linear(d.op, v), x, Width(addrSize))
  }

  // One number, which shifted stands for the immediate or for the displacement of a memory operand.
  ghost predicate Stands(w: seq<Write>, op: nat, shift: int, o: Operand, n: nat) {
    && |w| == 1 && w[0].OffsetWrite? && w[0].op == op
    && match o
       case ImmOp(x, _, _, _) => StandsFor(w[0].value + shift, x, n)
       case MemRef(m) => StandsFor(w[0].value + shift, m.offset, n)
       case RegOp(_) => StandsFor(w[0].value + shift, 0, n)
  }

  ghost predicate Registers(w: Write, op: nat, o: Operand) {
    o.RegOp? && w == RegWrite(op, o.reg.num)
  }

  // Registers come back by number, immediates modulo their width, addresses for every register file; a
  // relative operand counts from the end of the instruction, at `base`.
  ghost predicate Agrees(it: Item, w: seq<Write>, ins: Insn, base: int) {
    match it
    case PlusReg(op, _) => |w| == 1 && Registers(w[0], op, OpAt(ins, op))
    case RegField(op, _) => |w| == 1 && Registers(w[0], op, OpAt(ins, op))
    case Imm(op, n) => Stands(w, op, 0, OpAt(ins, op), n)
    case ImmSext(op, n) => Stands(w, op, 0, OpAt(ins, op), n)
    case ImmBySize(op) => Stands(w, op, 0, OpAt(ins, op), BytesBySize(OpAt(ins, op)))
    case MemOffset(op) => Stands(w, op, 0, OpAt(ins, op), ins.addrSize / 8)
    case Rel(op, n) => Stands(w, op, base, OpAt(ins, op), n)
    case RelBySize(op) => Stands(w, op, base, OpAt(ins, op), BytesBySize(OpAt(ins, op)))
    case RegMem(r, m) =>
      |w| == 2 && Registers(w[1], r, OpAt(ins, r)) && w[0].EaWrite? && w[0].op == m
      && EaAgrees(w[0].ea, OpAt(ins, m), ins.addrSize)
    case Digit(d, m) =>
      |w| == 1 && w[0].EaWrite? && w[0].op == m && EaAgrees(w[0].ea, OpAt(ins, m), ins.addrSize)
    case Cond(_) => w == [CondWrite(ins.cond)]
    case _ => w == []
  }

  // No bit is set in both.
  predicate Disjoint(a: nat, b: nat) {
    && (a % 2 == 0 || b % 2 == 0) && (a / 2 % 2 == 0 || b / 2 % 2 == 0)
    && (a / 4 % 2 == 0 || b / 4 % 2 == 0) && (a / 8 % 2 == 0 || b / 8 % 2 == 0)
  }

  // Where the two sides agree: a register opcode that does not wrap, an operand typed 16 bits in a 16-bit form
  // and 32 bits in a 32-bit one, an address that survives, a high register with LOCK put out for it and a low
  // one without, a condition on top of zero bits, prefixes as the bytecode wants them.
  predicate Readable(it: Item, ins: Insn, f: Scanned, s: State) {
    match it
    case PlusReg(op, t) => t + RegNum(OpAt(ins, op)) % 8 < 256
    case ImmBySize(op) => BytesBySize(OpAt(ins, op)) == SizeRead(s)
    case RelBySize(op) => BytesBySize(OpAt(ins, op)) == SizeRead(s)
    case RegMem(r, m) => EaReadable(OpAt(ins, m), ins.addrSize) && s.rexR == Bit3(RegNum(OpAt(ins, r)))
    case RegField(op, _) => s.rexR == Bit3(RegNum(OpAt(ins, op)))
    case Digit(_, m) => EaReadable(OpAt(ins, m), ins.addrSize)
    case Cond(t) => Disjoint(t, ins.cond)
    case _ => ReadsNothing(it) ==> Passes(it, f, s)
  }

  predicate EaReadable(o: Operand, addrSize: nat) {
    var m := AsMem(o);
    o.RegOp? || (!(PureOffset(m) && m.flags.sib && addrSize == 16) && DisplacementFits(m, addrSize))
  }

  // ---- What every template and every parsed instruction is like ----

  // The arguments that bytecodes can have.
  predicate Legal(it: Item) {
    match it
    case Imm(_, n) => n == 1 || n == 2 || n == 4 || n == 8
    case ImmSext(_, n) => n == 1 || n == 4
    case Rel(_, n) => n == 1 || n == 2 || n == 4
    case Digit(d, _) => d < 8
    case SetRep(r) => !r.NoRep?
    case SetOsize(o) => o.O16? || o.O32?
    case _ => true
  }

  lemma {:induction false} ItemsLegal(codes: seq<byte>, k: nat, opex: nat)
    requires Items(codes, k, opex).Some?
    ensures forall it :: it in Items(codes, k, opex).value ==> Legal(it)
    decreases if k <= |codes| then |codes| - k else 0
  {
    if k < |codes| {
      NextLegal(codes, k, opex);
      hide NextItem;
      match NextItem(codes, k, opex) {
        case Extend(x, j) => ItemsLegal(codes, j, x);
        case Take(it, j) => ItemsLegal(codes, j, 0);
        case _ =>
      }
    }
  }

  lemma NextLegal(codes: seq<byte>, k: nat, opex: nat)
    requires k < |codes|
    ensures NextItem(codes, k, opex).Take? ==> Legal(NextItem(codes, k, opex).item) && NextItem(codes, k, opex).k > k
    ensures NextItem(codes, k, opex).Extend? ==> NextItem(codes, k, opex).k > k
  {
  }

  // General registers, and addresses of the size that the instruction has.
  predicate OperandOk(o: Operand, addrSize: nat) {
    if o.RegOp? then o.reg.num < 16 else SizeFits(AsMem(o), addrSize) && RegsOk(AsMem(o))
  }

  predicate OperandsOk(ins: Insn) {
    (ins.addrSize == 16 || ins.addrSize == 32) && ins.cond < 16
    && forall i :: 0 <= i < |ins.oprs| ==> OperandOk(ins.oprs[i], ins.addrSize)
  }

  lemma OperandAt(ins: Insn, op: nat)
    requires OperandsOk(ins)
    ensures OperandOk(OpAt(ins, op), ins.addrSize)
  {
  }

  // The bytes that the matching of a bytecode consumes: all but those of prefixes.
  function Own(it: Item, ins: Insn, base: int): seq<byte> {
    if ReadsNothing(it) then [] else ItemBytes(it, ins, base, false)
  }

  // ---- One bytecode ----

  lemma LittleBack(data: seq<byte>, pos: nat, x: int, n: nat)
    requires (n == 1 || n == 2 || n == 4 || n == 8) && Holds(data, pos, Little(x, n))
    ensures LittleValue(data, pos, n) == x % Pow256(n)
  {
    hide Holds, Little, At, Word, Dword;
    if n == 8 {
      var y := x / 256 / 256 / 256 / 256;
      LittleEight(x);
      HoldsPart(data, pos, Little(x, 4), Little(y, 4));
      ReadBack(data, pos, x, 4);
      ReadBack(data, pos + 4, y, 4);
      SplitQword(x);
    } else {
      ReadBack(data, pos, x, n);
    }
  }

  lemma LittleEight(x: int)
    ensures Little(x, 8) == Little(x, 4) + Little(x / 256 / 256 / 256 / 256, 4)
  {
    LittleUnfold(x, 8);
    LittleUnfold(x, 4);
  }

  lemma LittleUnfold(x: int, n: nat)
    requires n >= 4
    ensures
      var a, b, c := x / 256, x / 256 / 256, x / 256 / 256 / 256;
      Little(x, n) == [x % 256, a % 256, b % 256, c % 256] + Little(c / 256, n - 4)
  {
    var a, b, c := x / 256, x / 256 / 256, x / 256 / 256 / 256;
    assert Little(x, n) == [x % 256] + Little(a, n - 1);
    assert Little(a, n - 1) == [a % 256] + Little(b, n - 2);
    assert Little(b, n - 2) == [b % 256] + Little(c, n - 3);
    assert Little(c, n - 3) == [c % 256] + Little(c / 256, n - 4);
  }

  lemma SplitQword(x: int)
    ensures x % TWO64 == x % TWO32 + TWO32 * (x / 256 / 256 / 256 / 256 % TWO32)
  {
    assert x / 256 / 256 / 256 / 256 == x / TWO32;
  }

  lemma StandsMod(x: int, n: nat)
    ensures StandsFor(x % Pow256(n), x, n)
  {
    var m := Pow256(n);
    var q := x / m;
    assert x == q * m + x % m;
    ModMultiple(-q, m);
  }

  lemma ModMultiple(a: int, m: nat)
    requires m > 0
    ensures a * m % m == 0
  {
    var q, r := a * m / m, a * m % m;
    Subtract(a, q, m);
    if a > q {
      AtLeastOne(a - q, m);
    } else if a < q {
      AtLeastOne(q - a, m);
      Subtract(q, a, m);
    }
  }

  // Signed readings of n bytes stand for the same number.
  lemma SignedBack(data: seq<byte>, pos: nat, x: int, n: nat)
    requires (n == 1 || n == 2 || n == 4) && Holds(data, pos, Little(x, n))
    ensures StandsFor(SignedValue(data, pos, n), x, n)
  {
    LittleBack(data, pos, x, n);
    hide Holds, Little, LittleValue, Signed8, Signed16, Signed32, StandsFor;
    SignedMod8(x);
    SignedMod16(x);
    SignedMod32(x);
  }

  lemma SignedMod8(x: int)
    ensures StandsFor(Signed8(x % 0x100), x, 1)
  {
    assert Signed8(x % 0x100) == Signed8(x);
  }

  lemma SignedMod16(x: int)
    ensures StandsFor(Signed16(x % 0x1_0000), x, 2)
  {
    assert Signed16(x % 0x1_0000) == Signed16(x);
  }

  lemma SignedMod32(x: int)
    ensures StandsFor(Signed32(x % TWO32), x, 4)
  {
    SameSigned32(x);
  }

  lemma RelStands(value: int, target: int, base: int, n: nat)
    requires StandsFor(value, target - base, n)
    ensures StandsFor(value + base, target, n)
  {
  }

  lemma LiteralBack(data: seq<byte>, pos: nat, b: seq<byte>)
    requires Holds(data, pos, b)
    ensures Slice(data, pos, |b|) == b
  {
    forall i | 0 <= i < |b| ensures Slice(data, pos, |b|)[i] == b[i] {
      HoldsAt(data, pos, b, i);
    }
  }

  lemma LowRegister(n: nat)
    requires n < 16 && !Bit3(n)
    ensures n % 8 == n
  {
  }

  lemma LowBits(n: nat)
    requires n < 16
    ensures n % 8 + (if Bit3(n) then 8 else 0) == n
  {
  }

  // The addressing items share this: ModRM and what follows.
  lemma EaBack(o: Operand, ins: Insn, rfield: nat, data: seq<byte>, pos: nat, ea: Ea)
    requires OperandEa(o, ins.addrSize, rfield) == Some(ea) && OperandOk(o, ins.addrSize)
    requires !ea.rexX && !ea.rexB && Holds(data, pos, EaBytes(ea, OffsetOf(o)))
    ensures At(data, pos) == ea.modrm && ea.modrm / 8 % 8 == rfield % 8
    ensures
      var d := DecodeEa(data, pos + 1, At(data, pos), ins.addrSize, 32, false, false);
      (d.next == pos + EaSize(ea) && EaAgrees(d, o, ins.addrSize)) <==> EaReadable(o, ins.addrSize)
  {
    hide EaOf, Little, At, Holds, Linear, RegsOk, SizeFits, Modrm, Signed8, DisplacementFits;
    var tail := (if ea.sib.Some? then [ea.sib.value] else []) + Little(OffsetOf(o), ea.bytes);
    assert EaBytes(ea, OffsetOf(o)) == [ea.modrm] + tail;
    HoldsPart(data, pos, [ea.modrm], tail);
    OneByte(data, pos, ea.modrm);
    if o.RegOp? {
      ModrmFields(3, rfield, o.reg.num);
      LowRegister(o.reg.num);
    } else {
      MemBack(AsMem(o), ins.addrSize, rfield, ea, data, pos + 1);
      AbsoluteAddress(o);
      ModrmOf(AsMem(o), ins.addrSize, rfield, ea);
    }
  }

  lemma AbsoluteAddress(o: Operand)
    ensures o.ImmOp? ==> forall v: RegFile :: Linear(AsMem(o), v) == o.offset
    ensures o.MemRef? ==> AsMem(o) == o.m
  {
  }

  lemma MemBack(m: MemOp, addrSize: nat, rfield: nat, ea: Ea, data: seq<byte>, pos: nat)
    requires EaOf(m, addrSize, rfield) == Some(ea) && RegsOk(m) && SizeFits(m, addrSize)
    requires Tail(data, pos, ea, m.offset)
    ensures
      var d := DecodeEa(data, pos, ea.modrm, addrSize, 32, ea.rexX, ea.rexB);
      (d.Memory? && d.next == pos + EaSize(ea) - 1
       && forall v: RegFile :: Congruent(Linear(d.op, v), Linear(m, v), Width(addrSize)))
      <==> !(PureOffset(m) && m.flags.sib && addrSize == 16) && DisplacementFits(m, addrSize)
  {
    hide EaOf, DecodeEa, Tail, Linear, Congruent, DisplacementFits, RegsOk, SizeFits, EaSize, PureOffset;
    ConsumesExactly(m, addrSize, rfield, ea, data, pos, 32);
    if !(PureOffset(m) && m.flags.sib && addrSize == 16) {
      var zero: RegFile := r => 0;
      AddressRoundTrip(m, addrSize, rfield, ea, data, pos, 32, zero);
      var d := DecodeEa(data, pos, ea.modrm, addrSize, 32, ea.rexX, ea.rexB);
      assert Congruent(Linear(d.op, zero), Linear(m, zero), Width(addrSize)) <==> DisplacementFits(m, addrSize);
      if DisplacementFits(m, addrSize) {
        forall v: RegFile ensures Congruent(Linear(d.op, v), Linear(m, v), Width(addrSize)) {
          AddressRoundTrip(m, addrSize, rfield, ea, data, pos, 32, v);
        }
      }
    }
  }

  lemma ModrmOf(m: MemOp, addrSize: nat, rfield: nat, ea: Ea)
    requires EaOf(m, addrSize, rfield) == Some(ea)
    ensures ea.modrm / 8 % 8 == rfield % 8
  {
    hide Reorganised, Modrm, Signed32, Signed16, Order16, Rm16;
    forall mod: nat, rm: nat | mod < 4 ensures Modrm(mod, rfield, rm) / 8 % 8 == rfield % 8 {
      ModrmFields(mod, rfield, rm);
    }
  }

  // What it means that an item is read back.
  ghost predicate Back(it: Item, ins: Insn, base: int, f: Scanned, s: State, data: seq<byte>, pos: nat) {
    var r := ReadItem(it, data, pos, f, s);
    r.Match? && r.next == pos + |Own(it, ins, base)| && Agrees(it, r.writes, ins, base)
  }

  // Main result for one bytecode: reading what the assembler put out consumes exactly its bytes and stores what
  // they came from, if and only if the bytecode is readable.
  lemma ItemBack(it: Item, ins: Insn, base: int, f: Scanned, s: State, data: seq<byte>, pos: nat)
    requires ItemSize(it, ins).Some? && Legal(it) && OperandsOk(ins) && f.sizes.asize == ins.addrSize
    requires !ItemRex(it, ins).b && !ItemRex(it, ins).x
    requires Holds(data, pos, Own(it, ins, base))
    ensures Back(it, ins, base, f, s, data, pos) <==> Readable(it, ins, f, s)
  {
    hide Back, Readable, Own, ItemSize, ItemRex, Holds, OperandsOk;
    match it {
      case Literal(b) => TextBack(b, ins, base, f, s, data, pos);
      case PlusReg(op, t) => PlusRegBack(op, t, ins, base, f, s, data, pos);
      case RegField(op, t) => RegFieldBack(op, t, ins, base, f, s, data, pos);
      case RegMem(r, m) => RegMemBack(r, m, ins, base, f, s, data, pos);
      case Digit(d, m) => DigitBack(d, m, ins, base, f, s, data, pos);
      case Cond(t) => CondBack(t, ins, base, f, s, data, pos);
      case _ => ValueBack(it, ins, base, f, s, data, pos);
    }
  }

  lemma TextBack(b: seq<byte>, ins: Insn, base: int, f: Scanned, s: State, data: seq<byte>, pos: nat)
    requires Holds(data, pos, Own(Literal(b), ins, base))
    ensures Back(Literal(b), ins, base, f, s, data, pos) <==> Readable(Literal(b), ins, f, s)
  {
    hide Slice, Holds;
    LiteralBack(data, pos, b);
  }

  lemma PlusRegBack(op: nat, t: byte, ins: Insn, base: int, f: Scanned, s: State, data: seq<byte>, pos: nat)
    requires ItemSize(PlusReg(op, t), ins).Some? && OperandsOk(ins) && !ItemRex(PlusReg(op, t), ins).b
    requires Holds(data, pos, Own(PlusReg(op, t), ins, base))
    ensures Back(PlusReg(op, t), ins, base, f, s, data, pos) <==> Readable(PlusReg(op, t), ins, f, s)
  {
    hide Holds, At, OpAt, OperandsOk;
    OperandAt(ins, op);
    LowRegister(RegNum(OpAt(ins, op)));
    OneByte(data, pos, (t + RegNum(OpAt(ins, op))) % 256);
  }

  lemma RegFieldBack(op: nat, t: byte, ins: Insn, base: int, f: Scanned, s: State, data: seq<byte>, pos: nat)
    requires ItemSize(RegField(op, t), ins).Some? && OperandsOk(ins)
    requires Holds(data, pos, Own(RegField(op, t), ins, base))
    ensures Back(RegField(op, t), ins, base, f, s, data, pos) <==> Readable(RegField(op, t), ins, f, s)
  {
    hide Holds, At, OpAt, OperandsOk, Bit3;
    var n := RegNum(OpAt(ins, op));
    var b := t / 64 * 64 + n % 8 * 8 + t % 8;
    RegisterBack(ins, op);
    OneByte(data, pos, b);
    FieldParts(t, n);
  }

  lemma FieldParts(t: byte, n: nat)
    ensures
      var b := t / 64 * 64 + n % 8 * 8 + t % 8;
      b / 64 == t / 64 && b % 8 == t % 8 && b / 8 % 8 == n % 8
  {
  }

  lemma RegMemBack(r: nat, m: nat, ins: Insn, base: int, f: Scanned, s: State, data: seq<byte>, pos: nat)
    requires ItemSize(RegMem(r, m), ins).Some? && OperandsOk(ins) && f.sizes.asize == ins.addrSize
    requires !ItemRex(RegMem(r, m), ins).b && !ItemRex(RegMem(r, m), ins).x
    requires Holds(data, pos, Own(RegMem(r, m), ins, base))
    ensures Back(RegMem(r, m), ins, base, f, s, data, pos) <==> Readable(RegMem(r, m), ins, f, s)
  {
    hide DecodeEa, EaOf, EaAgrees, EaBytes, At, Holds, EaReadable, OperandOk, Bit3;
    var o, n := OpAt(ins, m), RegNum(OpAt(ins, r));
    var ea := OperandEa(o, ins.addrSize, n).value;
    EaRexExtension(o, ins.addrSize, n, ea);
    OperandAt(ins, m);
    EaBack(o, ins, n, data, pos, ea);
    RegisterBack(ins, r);
  }

  lemma RegisterBack(ins: Insn, r: nat)
    requires OperandsOk(ins) && OpAt(ins, r).RegOp?
    ensures
      var n := RegNum(OpAt(ins, r));
      n % 8 + (if Bit3(n) then 8 else 0) == n
  {
    OperandAt(ins, r);
    LowBits(RegNum(OpAt(ins, r)));
  }

  lemma DigitBack(d: nat, m: nat, ins: Insn, base: int, f: Scanned, s: State, data: seq<byte>, pos: nat)
    requires ItemSize(Digit(d, m), ins).Some? && d < 8 && OperandsOk(ins) && f.sizes.asize == ins.addrSize
    requires !ItemRex(Digit(d, m), ins).b && !ItemRex(Digit(d, m), ins).x
    requires Holds(data, pos, Own(Digit(d, m), ins, base))
    ensures Back(Digit(d, m), ins, base, f, s, data, pos) <==> Readable(Digit(d, m), ins, f, s)
  {
    hide DecodeEa, EaOf, EaAgrees, EaBytes, At, Holds, EaReadable, OperandOk;
    var o := OpAt(ins, m);
    var ea := OperandEa(o, ins.addrSize, d).value;
    EaRexExtension(o, ins.addrSize, d, ea);
    OperandAt(ins, m);
    EaBack(o, ins, d, data, pos, ea);
  }

  lemma EaRexExtension(o: Operand, addrSize: nat, rfield: nat, ea: Ea)
    requires OperandEa(o, addrSize, rfield) == Some(ea)
    ensures EaRex(o, ea).b == ea.rexB && (!o.RegOp? ==> EaRex(o, ea).x == ea.rexX) && (o.RegOp? ==> !ea.rexX)
  {
    hide EaOf;
  }

  // t ^ c is t + c exactly if no bit is set in both.
  lemma NibbleSum(t: byte, c: nat)
    requires c < 16
    ensures XorNibble(t, c) == t + c <==> Disjoint(t, c)
    ensures XorNibble(t, c) <= t + c
  {
    hide XorBit;
    ByteBits(t);
    FourBits(c);
    XorSum(t, c);
    XorSum(t / 2, c / 2);
    XorSum(t / 4, c / 4);
    XorSum(t / 8, c / 8);
  }

  lemma ByteBits(t: byte)
    ensures t / 16 * 16 + (t / 8 % 2 * 8 + t / 4 % 2 * 4 + t / 2 % 2 * 2 + t % 2) == t
  {
    var a, b, c := t / 2, t / 4, t / 8;
    assert t == 2 * a + t % 2;
    assert a == 2 * b + a % 2;
    assert b == 2 * c + b % 2;
    assert c == 2 * (t / 16) + c % 2;
  }

  lemma XorSum(a: nat, b: nat)
    ensures XorBit(a, b) <= a % 2 + b % 2
    ensures XorBit(a, b) == a % 2 + b % 2 <==> a % 2 == 0 || b % 2 == 0
  {
  }

  lemma FourBits(c: nat)
    requires c < 16
    ensures c / 8 % 2 * 8 + c / 4 % 2 * 4 + c / 2 % 2 * 2 + c % 2 == c
  {
  }

  lemma CondBack(t: byte, ins: Insn, base: int, f: Scanned, s: State, data: seq<byte>, pos: nat)
    requires OperandsOk(ins) && Holds(data, pos, Own(Cond(t), ins, base))
    ensures Back(Cond(t), ins, base, f, s, data, pos) <==> Readable(Cond(t), ins, f, s)
  {
    hide XorNibble, Holds, At, Disjoint;
    NibbleSum(t, ins.cond);
    OneByte(data, pos, XorNibble(t, ins.cond));
  }

  lemma ValueBack(it: Item, ins: Insn, base: int, f: Scanned, s: State, data: seq<byte>, pos: nat)
    requires ItemSize(it, ins).Some? && Legal(it) && OperandsOk(ins) && f.sizes.asize == ins.addrSize
    requires !it.Literal? && !it.PlusReg? && !it.RegField? && !it.RegMem? && !it.Digit? && !it.Cond?
    requires Holds(data, pos, Own(it, ins, base))
    ensures Back(it, ins, base, f, s, data, pos) <==> Readable(it, ins, f, s)
  {
    hide Holds, Little, LittleValue, SignedValue, StandsFor, Pow256, OpAt, Passes;
    if !ReadsNothing(it) {
      NumberBack(it, ins, base, f, s, data, pos);
    }
  }

  // Immediates and relative targets.
  lemma NumberBack(it: Item, ins: Insn, base: int, f: Scanned, s: State, data: seq<byte>, pos: nat)
    requires Legal(it) && OperandsOk(ins) && f.sizes.asize == ins.addrSize && !ReadsNothing(it)
    requires !it.Literal? && !it.PlusReg? && !it.RegField? && !it.RegMem? && !it.Digit? && !it.Cond?
    requires Holds(data, pos, Own(it, ins, base))
    ensures Back(it, ins, base, f, s, data, pos) <==> Readable(it, ins, f, s)
  {
    hide Holds, Little, LittleValue, SignedValue, StandsFor, Pow256, OpAt, Passes;
    match it {
      case Imm(op, n) => ImmBack(data, pos, OffsetOf(OpAt(ins, op)), n);
      case ImmSext(op, n) => SignedBack(data, pos, OffsetOf(OpAt(ins, op)), n);
      case ImmBySize(op) => ImmBack(data, pos, OffsetOf(OpAt(ins, op)), BytesBySize(OpAt(ins, op)));
      case MemOffset(op) => ImmBack(data, pos, OffsetOf(OpAt(ins, op)), ins.addrSize / 8);
      case Rel(op, n) =>
        SignedBack(data, pos, OffsetOf(OpAt(ins, op)) - base, n);
        RelStands(SignedValue(data, pos, n), OffsetOf(OpAt(ins, op)), base, n);
      case RelBySize(op) =>
        var n := BytesBySize(OpAt(ins, op));
        SignedBack(data, pos, OffsetOf(OpAt(ins, op)) - base, n);
        RelStands(SignedValue(data, pos, n), OffsetOf(OpAt(ins, op)), base, n);
    }
  }

  lemma ImmBack(data: seq<byte>, pos: nat, x: int, n: nat)
    requires (n == 1 || n == 2 || n == 4 || n == 8) && Holds(data, pos, Little(x, n))
    ensures StandsFor(LittleValue(data, pos, n), x, n)
  {
    LittleBack(data, pos, x, n);
    hide StandsFor, LittleValue, Pow256, Holds, Little;
    StandsMod(x, n);
  }
}
