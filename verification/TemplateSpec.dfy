// What the bytecodes of a template mean.

module TemplateSpec {
  import opened Common
  import opened X86
  import opened EaSpec

  // An operand after parsing.  The sizes of an immediate are those of its type.
  datatype Operand = RegOp(reg: Reg) | MemRef(m: MemOp) | ImmOp(offset: int, bits16: bool, bits32: bool, bits64: bool)

  datatype Rep = NoRep | RepF3 | RepF2
  datatype Osize = NoOsize | O16 | O32 | O64 | OSP

  // The prefix slots, in the order in which they are put out.
  datatype Prefixes = Prefixes(wait: bool, rep: Rep, lock: bool, seg: Option<byte>, osize: Osize, asize: Asize)

  const NO_PREFIXES := Prefixes(false, NoRep, false, None, NoOsize, NoAsize)

  // REX flags; `nh` and `l` mark templates that use no high registers or the LOCK prefix as REX.R.
  datatype Rex = Rex(b: bool, x: bool, r: bool, w: bool, h: bool, p: bool, nh: bool, l: bool)

  const NO_REX := Rex(false, false, false, false, false, false, false, false)

  datatype Insn = Insn(oprs: seq<Operand>, prefixes: Prefixes, addrSize: nat, cond: nat)

  // One bytecode with its arguments.
  datatype Item =
    | Literal(bytes: seq<byte>)             // \1..\4
    | PlusReg(op: nat, base: byte)          // \10..\13
    | Imm(op: nat, n: nat)                  // ib, iw, id, iq
    | ImmSext(op: nat, n: nat)              // ib,s and id,s
    | ImmBySize(op: nat)                    // iwd
    | MemOffset(op: nat)                    // \44
    | Rel(op: nat, n: nat)                  // rel8, rel16, rel32
    | RelBySize(op: nat)                    // rel
    | RegMem(r: nat, m: nat)                // /r
    | RegField(op: nat, base: byte)         // \171
    | Digit(d: nat, m: nat)                 // /0../7
    | Cond(base: byte)                      // \330
    | Fixed(c: nat)                         // f2i, f3i, the SSE prefixes, jlen
    | SetOsize(o: Osize) | SetRep(rep: Rep) | SetWait
    | AddrA16                               // a16
    | ForceW | NoForceW | NoHigh | LockRex  // \324, \323, \325, \334
    | Silent(c: nat)                        // codes for the disassembler only

  // ---- Reading the template ----

  // The item at index k, the index behind it; an operand-extension byte only changes `opex`.
  datatype Next = Done | Extend(opex: nat, k: nat) | Take(item: Item, k: nat) | Unsupported

  function Op1(c: nat, opex: nat): nat {
    c % 4 + opex % 2 * 4
  }

  function Op2(c: nat, opex: nat): nat {
    c / 8 % 4 + opex / 2 % 2 * 4
  }

  function Slice(codes: seq<byte>, k: nat, n: nat): (r: seq<byte>)
    ensures |r| == n
  {
    seq<byte>(n, i requires 0 <= i < n => At(codes, k + i))
  }

  function NextItem(codes: seq<byte>, k: nat, opex: nat): Next {
    var c := At(codes, k);
    var (o1, o2) := (Op1(c, opex), Op2(c, opex));
    if c == 0 then Done
    else if c <= 4 then Take(Literal(Slice(codes, k + 1, c)), k + 1 + c)
    else if c <= 7 then Extend(c, k + 1)
    else if c <= 11 then Take(PlusReg(o1, At(codes, k + 1)), k + 2)
    else if 16 <= c <= 23 then Take(Imm(o1, 1), k + 1)
    else if 24 <= c <= 27 then Take(Imm(o1, 2), k + 1)
    else if 28 <= c <= 31 then Take(ImmBySize(o1), k + 1)
    else if 32 <= c <= 35 then Take(Imm(o1, 4), k + 1)
    else if 36 <= c <= 39 then Take(MemOffset(o1), k + 1)
    else if 40 <= c <= 43 then Take(Rel(o1, 1), k + 1)
    else if 44 <= c <= 47 then Take(Imm(o1, 8), k + 1)
    else if 48 <= c <= 51 then Take(Rel(o1, 2), k + 1)
    else if 52 <= c <= 55 then Take(RelBySize(o1), k + 1)
    else if 56 <= c <= 59 then Take(Rel(o1, 4), k + 1)
    else if 64 <= c <= 95 && c / 4 % 2 == 0 then Take(RegMem(o1, o2), k + 1)
    else if c == 121 then
      var t := At(codes, k + 1);
      Take(RegField(o2 / 4 * 4 + t / 8 % 4, t), k + 2)
    else if 128 <= c <= 159 then Take(Digit(c % 8, o2), k + 1)
    else if 172 <= c <= 175 then Take(ImmSext(o1, 4), k + 1)
    else if 185 <= c <= 187 then Take(Silent(c), k + 1)
    else if 188 <= c <= 191 then Take(ImmSext(o1, 1), k + 1)
    else if 192 <= c <= 195 then Take(Silent(c), k + 1)
    else if c == 200 then Take(AddrA16, k + 1)
    else if c == 201 || c == 202 || 204 <= c <= 207 then Take(Silent(c), k + 1)
    else if c == 208 then Take(SetOsize(O16), k + 1)
    else if c == 209 then Take(SetOsize(O32), k + 1)
    else if c == 210 || c == 214 || c == 217 || c == 221 then Take(Silent(c), k + 1)
    else if c == 211 then Take(NoForceW, k + 1)
    else if c == 212 then Take(ForceW, k + 1)
    else if c == 213 then Take(NoHigh, k + 1)
    else if c == 216 then Take(Cond(At(codes, k + 1)), k + 2)
    else if c == 218 || c == 219 then Take(Fixed(c), k + 1)
    else if c == 220 then Take(LockRex, k + 1)
    else if c == 222 then Take(SetRep(RepF3), k + 1)
    else if c == 223 then Take(SetRep(RepF2), k + 1)
    else if c == 225 then Take(SetWait, k + 1)
    else if c == 240 || c == 244 || c == 245 || c == 248 || c == 249 then Take(Silent(c), k + 1)
    else if c == 241 || c == 246 || c == 247 || c == 251 then Take(Fixed(c), k + 1)
    else Unsupported
  }

  // All items from index k on; None for a template outside the legacy set.
  function Items(codes: seq<byte>, k: nat, opex: nat): Option<seq<Item>>
    decreases if k <= |codes| then |codes| - k else 0
  {
    if k >= |codes| then Some([])
    else
      match NextItem(codes, k, opex)
      case Done => Some([])
      case Unsupported => None
      case Extend(x, j) => Items(codes, j, x)
      case Take(item, j) =>
        var r := Items(codes, j, 0);
        if r.None? then None else Some([item] + r.value)
  }

  // ---- Operands ----

  function OpAt(ins: Insn, op: nat): Operand {
    if op < |ins.oprs| then ins.oprs[op] else ImmOp(0, false, false, false)
  }

  function OffsetOf(o: Operand): int {
    match o
    case RegOp(_) => 0
    case MemRef(m) => m.offset
    case ImmOp(x, _, _, _) => x
  }

  function BytesBySize(o: Operand): nat {
    if o.ImmOp? && o.bits16 then 2 else 4
  }

  predicate EaReg(c: RegClass) {
    !c.Ctl32? && !c.Other?
  }

  // An immediate where a template wants r/m is an absolute address.
  function AsMem(o: Operand): MemOp {
    match o
    case MemRef(m) => m
    case _ => MemOp(None, None, 0, OffsetOf(o), 0, NO_FLAGS, None, NoHint, false, false)
  }

  function OperandEa(o: Operand, addrSize: nat, rfield: nat): Option<Ea> {
    if o.RegOp? then
      if EaReg(o.reg.cls) then Some(Ea(Modrm(3, rfield, o.reg.num), None, 0, false, Bit3(o.reg.num))) else None
    else EaOf(AsMem(o), addrSize, rfield)
  }

  function RegNum(o: Operand): nat {
    if o.RegOp? then o.reg.num else 0
  }

  // ---- Length ----

  // None where calcsize gives up; the panic on a missing register counts as giving up.
  function ItemSize(it: Item, ins: Insn): Option<nat> {
    match it
    case Literal(b) => Some(|b|)
    case PlusReg(op, _) => if OpAt(ins, op).RegOp? then Some(1) else None
    case Imm(_, n) => Some(n)
    case ImmSext(_, n) => Some(n)
    case ImmBySize(op) => Some(BytesBySize(OpAt(ins, op)))
    case MemOffset(_) => Some(ins.addrSize / 8)
    case Rel(_, n) => Some(n)
    case RelBySize(op) => Some(BytesBySize(OpAt(ins, op)))
    case RegMem(r, m) =>
      if !OpAt(ins, r).RegOp? then None
      else
        var ea := OperandEa(OpAt(ins, m), ins.addrSize, RegNum(OpAt(ins, r)));
        if ea.None? then None else Some(EaSize(ea.value))
    case RegField(op, _) => if OpAt(ins, op).RegOp? then Some(1) else None
    case Digit(d, m) =>
      var ea := OperandEa(OpAt(ins, m), ins.addrSize, d);
      if ea.None? then None else Some(EaSize(ea.value))
    case Cond(_) => Some(1)
    case Fixed(_) => Some(1)
    case AddrA16 => Some(if ins.prefixes.asize.A16? then 0 else 1)
    case _ => Some(0)
  }

  // rexflags, masked to the bits given.
  function RegRex(r: Reg, b: bool, x: bool, rr: bool, full: bool): Rex {
    var ext := Bit3(r.num);
    Rex(ext && b, ext && x, ext && rr, full && r.cls.Gpr64?, full && r.cls.High8?,
        full && r.cls.Gpr8? && r.num >= 4, false, false)
  }

  function OrRex(a: Rex, b: Rex): Rex {
    Rex(a.b || b.b, a.x || b.x, a.r || b.r, a.w || b.w, a.h || b.h, a.p || b.p, a.nh || b.nh, a.l || b.l)
  }

  function EaRex(o: Operand, ea: Ea): Rex {
    if o.RegOp? then RegRex(o.reg, true, false, false, true) else NO_REX.(b := ea.rexB, x := ea.rexX)
  }

  function ItemRex(it: Item, ins: Insn): Rex {
    match it
    case PlusReg(op, _) =>
      if OpAt(ins, op).RegOp? then RegRex(OpAt(ins, op).reg, true, false, false, true) else NO_REX
    case RegField(op, _) =>
      if OpAt(ins, op).RegOp? then RegRex(OpAt(ins, op).reg, false, false, true, true) else NO_REX
    case RegMem(r, m) =>
      if !OpAt(ins, r).RegOp? then NO_REX
      else
        var ea := OperandEa(OpAt(ins, m), ins.addrSize, RegNum(OpAt(ins, r)));
        if ea.None? then NO_REX
        else OrRex(RegRex(OpAt(ins, r).reg, false, false, true, true), EaRex(OpAt(ins, m), ea.value))
    case Digit(d, m) =>
      var ea := OperandEa(OpAt(ins, m), ins.addrSize, d);
      if ea.None? then NO_REX else EaRex(OpAt(ins, m), ea.value)
    case ForceW => NO_REX.(w := true)
    case NoHigh => NO_REX.(nh := true)
    case LockRex => NO_REX.(l := true)
    case _ => NO_REX
  }

  function ItemPrefixes(it: Item, p: Prefixes): Prefixes {
    match it
    case SetOsize(o) => if p.osize.NoOsize? then p.(osize := o) else p
    case SetRep(rep) => if p.rep.NoRep? then p.(rep := rep) else p
    case SetWait => p.(wait := true)
    case _ => p
  }

  // What calcsize has gathered after some items: the length, the REX flags, whether W is masked, the prefixes.
  datatype Sizing = Sizing(length: nat, rex: Rex, noW: bool, prefixes: Prefixes)

  function AddItem(s: Option<Sizing>, it: Item, ins: Insn): Option<Sizing> {
    if s.None? || ItemSize(it, ins).None? then None
    else Some(Sizing(s.value.length + ItemSize(it, ins).value, OrRex(s.value.rex, ItemRex(it, ins)),
                     s.value.noW || it.NoForceW?, ItemPrefixes(it, s.value.prefixes)))
  }

  function SizeItems(items: seq<Item>, ins: Insn): Option<Sizing> {
    if items == [] then Some(Sizing(0, NO_REX.(w := ins.prefixes.osize.O64?), false, ins.prefixes))
    else AddItem(SizeItems(items[..|items| - 1], ins), items[|items| - 1], ins)
  }

  function FinalRex(s: Sizing): Rex {
    var r := s.rex.(w := s.rex.w && !s.noW);
    if r.nh then r.(p := false) else r
  }

  // Bytes of the LOCK prefix that stands for REX.R, None for "invalid operands in non-64-bit mode" and the
  // other register errors.
  function LockBytes(s: Sizing, x64: bool): Option<nat> {
    var r := FinalRex(s);
    if s.rex.nh && s.rex.h then None
    else if !(r.b || r.x || r.r || r.w || r.p) then Some(0)
    else if r.h then None
    else if r.l && !(r.p || r.w || r.x || r.b) && x64 then Some(1)
    else None
  }

  // The byte for slot j, 0 for none.
  function SlotByte(p: Prefixes, j: nat): byte {
    if j == 0 then (if p.wait then 0x9B else 0)
    else if j == 1 then (match p.rep case NoRep => 0 case RepF3 => 0xF3 case RepF2 => 0xF2)
    else if j == 2 then (if p.lock then 0xF0 else 0)
    else if j == 3 then (if p.seg.Some? then p.seg.value else 0)
    else if j == 4 then (if p.osize.O16? || p.osize.OSP? then 0x66 else 0)
    else if p.asize.A16? || p.asize.ASP? then 0x67 else 0
  }

  function SlotBytes(p: Prefixes, j: nat): seq<byte> {
    if j == 0 then []
    else SlotBytes(p, j - 1) + if SlotByte(p, j - 1) != 0 then [SlotByte(p, j - 1)] else []
  }

  function PrefixBytes(p: Prefixes): seq<byte> {
    SlotBytes(p, 6)
  }

  // calcsize: the length, and the instruction with its prefixes completed.
  function InsnSize(items: seq<Item>, ins: Insn, x64: bool): Option<(nat, Insn, Rex)> {
    var s := SizeItems(items, ins);
    if s.None? || LockBytes(s.value, x64).None? then None
    else Some((s.value.length + LockBytes(s.value, x64).value + |PrefixBytes(s.value.prefixes)|,
               ins.(prefixes := s.value.prefixes), FinalRex(s.value)))
  }

  // ---- Output ----

  function XorBit(a: nat, b: nat): nat {
    (a + b) % 2
  }

  // t ^ c for a four-bit c.
  function XorNibble(t: byte, c: nat): (r: byte)
    requires c < 16
  {
    t / 16 * 16 + XorBit(t / 8, c / 8) * 8 + XorBit(t / 4, c / 4) * 4 + XorBit(t / 2, c / 2) * 2 + XorBit(t, c)
  }

  function FixedByte(c: nat): byte {
    if c == 218 then 0xF2 else if c == 219 then 0xF3 else if c == 247 then 0x67 else if c == 251 then 5 else 0x66
  }

  // `base` is the address that relative operands count from: the end of the instruction.
  function ItemBytes(it: Item, ins: Insn, base: int, rexR: bool): seq<byte> {
    match it
    case Literal(b) => b
    case PlusReg(op, t) => [(t + RegNum(OpAt(ins, op)) % 8) % 256]
    case Imm(op, n) => Little(OffsetOf(OpAt(ins, op)), n)
    case ImmSext(op, n) => Little(OffsetOf(OpAt(ins, op)), n)
    case ImmBySize(op) => Little(OffsetOf(OpAt(ins, op)), BytesBySize(OpAt(ins, op)))
    case MemOffset(op) => Little(OffsetOf(OpAt(ins, op)), ins.addrSize / 8)
    case Rel(op, n) => Little(OffsetOf(OpAt(ins, op)) - base, n)
    case RelBySize(op) => Little(OffsetOf(OpAt(ins, op)) - base, BytesBySize(OpAt(ins, op)))
    case RegMem(r, m) =>
      var ea := OperandEa(OpAt(ins, m), ins.addrSize, RegNum(OpAt(ins, r)));
      if ea.None? then [] else EaBytes(ea.value, OffsetOf(OpAt(ins, m)))
    case RegField(op, t) => [t / 64 * 64 + RegNum(OpAt(ins, op)) % 8 * 8 + t % 8]
    case Digit(d, m) =>
      var ea := OperandEa(OpAt(ins, m), ins.addrSize, d);
      if ea.None? then [] else EaBytes(ea.value, OffsetOf(OpAt(ins, m)))
    case Cond(t) => [XorNibble(t, ins.cond % 16)]
    case Fixed(c) => [FixedByte(c)]
    case AddrA16 => if ins.prefixes.asize.A16? then [] else [0x67]
    case LockRex => if rexR then [0xF0] else []
    case _ => []
  }

  // Putting out REX.R as LOCK happens once.
  function CodeBytes(items: seq<Item>, ins: Insn, base: int, rexR: bool): seq<byte> {
    if items == [] then []
    else ItemBytes(items[0], ins, base, rexR) + CodeBytes(items[1..], ins, base, rexR && !items[0].LockRex?)
  }

  // REX.R not yet put out as LOCK.
  function LockLeft(items: seq<Item>, rexR: bool): bool {
    if items == [] then rexR else LockLeft(items[1..], rexR && !items[0].LockRex?)
  }

  // gencode, on the instruction as calcsize left it.
  function InsnBytes(items: seq<Item>, ins: Insn, base: int, rex: Rex): seq<byte> {
    PrefixBytes(ins.prefixes) + CodeBytes(items, ins, base, rex.r)
  }
}
