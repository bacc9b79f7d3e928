// What process_ea decides and what do_ea reads back.

module EaSpec {
  import opened Common
  import opened X86

  const ESP: int := 4
  const EBP: int := 5

  // Register numbers of base and index, -1 for none, and the scale.
  datatype Form = Form(b: int, i: int, s: int)

  // ModRM and SIB bytes, the number of displacement bytes and the register extension bits.
  datatype Ea = Ea(modrm: byte, sib: Option<byte>, bytes: nat, rexX: bool, rexB: bool)

  function EaSize(ea: Ea): nat {
    1 + (if ea.sib.Some? then 1 else 0) + ea.bytes
  }

  function Modrm(mod: nat, reg: nat, rm: nat): (r: byte)
    requires mod < 4
  {
    mod * 64 + reg % 8 * 8 + rm % 8
  }

  function Sib(scale: nat, index: nat, base: nat): (r: byte)
    requires scale < 4 && index < 8 && base < 8
  {
    scale * 64 + index * 8 + base
  }

  // ---- The 32-bit reorganisation of base and index, in the order of the source ----

  function Num(r: Option<Reg>): int {
    if r.Some? then r.value.num else -1
  }

  function UsedIndex(m: MemOp): Option<Reg> {
    if m.scale == 0 then None else m.index
  }

  predicate HintIs(m: MemOp, r: Option<Reg>, h: Hint) {
    m.hintBase == r && m.hint == h
  }

  function SwapByHint(m: MemOp, f: Form): Form {
    if f.s == 1 && f.b != f.i && f.b != -1 && f.i != -1
       && (HintIs(m, m.base, NotBase) || HintIs(m, UsedIndex(m), MakeBase))
    then Form(f.i, f.b, f.s)
    else f
  }

  function SingleToBase(m: MemOp, f: Form): Form {
    if f.b == -1 && f.s == 1 && !HintIs(m, UsedIndex(m), NotBase) then Form(f.i, -1, f.s) else f
  }

  // MPX operands: an explicit single index, and a register summed once too often split again.
  function MibSplit(m: MemOp, f: Form): Form {
    var g := if f.i == -1 && HintIs(m, m.base, NotBase) then Form(-1, f.b, 1) else f;
    if m.hint == Summed && g.b == -1 then Form(g.i, g.i, g.s - 1) else g
  }

  // 2x, 3x, 5x and 9x become x + 1x, 2x, 4x, 8x.
  function SplitMultiple(m: MemOp, f: Form): Form {
    if ((f.s == 2 && f.i != ESP && (!m.flags.timesTwo || m.hint == Summed)) || f.s == 3 || f.s == 5 || f.s == 9)
       && f.b == -1
    then Form(f.i, f.i, f.s - 1)
    else f
  }

  // [nosplit x*1] keeps x as an index.
  function KeepIndex(m: MemOp, f: Form): Form {
    if f.i == -1 && f.b % 8 != ESP && m.flags.timesTwo && HintIs(m, m.base, NotBase)
    then Form(-1, f.b, 1)
    else f
  }

  function EspToBase(f: Form): Form {
    if f.s == 1 && f.i == ESP then Form(f.i, f.b, f.s) else f
  }

  function Reorganised(m: MemOp): Form {
    var f := SingleToBase(m, SwapByHint(m, Form(Num(m.base), Num(UsedIndex(m)), m.scale)));
    EspToBase(if m.flags.mib then MibSplit(m, f) else KeepIndex(m, SplitMultiple(m, f)))
  }

  // ---- Choice of bytes ----

  predicate NoShortForm(m: MemOp) {
    m.relocated || m.forward
  }

  // The mod field for a base register; `rm` is the number that has no form without displacement.
  function ModFor(m: MemOp, rm: int, none: int, o: int): nat {
    if rm != none && o == 0 && !NoShortForm(m) && !m.flags.byteOffs && !m.flags.wordOffs then 0
    else if !m.flags.wordOffs && (m.flags.byteOffs || (-128 <= o <= 127 && !NoShortForm(m))) then 1
    else 2
  }

  function ScaleBits(s: int): Option<nat> {
    if s == 1 then Some(0) else if s == 2 then Some(1) else if s == 4 then Some(2) else if s == 8 then Some(3) else None
  }

  predicate Bit3(n: int) {
    n >= 0 && n / 8 % 2 == 1
  }

  function Emit32(m: MemOp, f: Form, rfield: nat): Option<Ea>
    requires f.b >= -1 && f.i >= -1
  {
    var o := Signed32(m.offset);
    if f.i == ESP || (f.s != 1 && f.s != 2 && f.s != 4 && f.s != 8 && f.i != -1) then None
    else
      var rm := if f.b == -1 then 5 else f.b % 8;
      var mod := if f.b == -1 then 0 else ModFor(m, rm, EBP, o);
      var bytes := if f.b == -1 || mod == 2 then 4 else mod;
      if f.i == -1 && f.b % 8 != ESP && !m.flags.sib then
        Some(Ea(Modrm(mod, rfield, rm), None, bytes, Bit3(f.i), Bit3(f.b)))
      else
        var sc := ScaleBits(if f.i == -1 then 1 else f.s);
        if sc.None? then None
        else
          var index := if f.i == -1 then 4 else f.i % 8;
          Some(Ea(Modrm(mod, rfield, 4), Some(Sib(sc.value, index, rm)), bytes, Bit3(f.i), Bit3(f.b)))
  }

  // ---- Which operands are accepted ----

  predicate Wide(r: Option<Reg>) {
    r.Some? && (r.value.cls.Gpr32? || r.value.cls.Gpr64? || r.value.cls.Ctl32?)
  }

  // Registers of a 32-bit effective address: general, and both of one size that 32-bit addressing has.
  predicate Ok32(m: MemOp, addrbits: nat) {
    && (UsedIndex(m).Some? ==> UsedIndex(m).value.cls.Gpr32?)
    && (m.base.Some? ==> m.base.value.cls.Gpr32?)
    && m.dispSize != 16 && m.dispSize != 64 && addrbits == 32
  }

  const BX := Reg(Gpr16, 3)
  const BP := Reg(Gpr16, 5)
  const SI := Reg(Gpr16, 6)
  const DI := Reg(Gpr16, 7)

  // The rm field of a 16-bit form, after base and index have been put in order.
  function Rm16(b: Option<Reg>, i: Option<Reg>): Option<nat> {
    if b == Some(BX) && i == Some(SI) then Some(0)
    else if b == Some(BX) && i == Some(DI) then Some(1)
    else if b == Some(BP) && i == Some(SI) then Some(2)
    else if b == Some(BP) && i == Some(DI) then Some(3)
    else if i.Some? then None
    else if b == Some(SI) then Some(4)
    else if b == Some(DI) then Some(5)
    else if b == Some(BP) then Some(6)
    else if b == Some(BX) then Some(7)
    else None
  }

  function Order16(m: MemOp): (Option<Reg>, Option<Reg>) {
    var (b, i) := (m.base, UsedIndex(m));
    var (b1, i1) := if b.None? && i.Some? then (i, b) else (b, i);
    if (b1 == Some(SI) || b1 == Some(DI)) && i1.Some? then (i1, b1) else (b1, i1)
  }

  predicate Reg16(r: Option<Reg>) {
    r.None? || r == Some(BX) || r == Some(BP) || r == Some(SI) || r == Some(DI)
  }

  function Emit16(m: MemOp, rfield: nat): Option<Ea> {
    var (b, i) := Order16(m);
    if !Reg16(m.base) || !Reg16(UsedIndex(m)) || m.dispSize == 32 || m.dispSize == 64 then None
    else if m.scale != 1 && UsedIndex(m).Some? then None
    else if b == i || b.None? then None
    else
      var rm := Rm16(b, i);
      if rm.None? then None
      else
        var mod := ModFor(m, rm.value, 6, Signed16(m.offset));
        Some(Ea(Modrm(mod, rfield, rm.value), None, mod, false, false))
  }

  predicate PureOffset(m: MemOp) {
    m.base.None? && UsedIndex(m).None?
  }

  function EmitOffset(m: MemOp, addrbits: nat, rfield: nat): Ea {
    if m.flags.sib then Ea(Modrm(0, rfield, 4), Some(Sib(0, 4, 5)), 4, false, false)
    else if addrbits != 16 then Ea(Modrm(0, rfield, 5), None, 4, false, false)
    else Ea(Modrm(0, rfield, 6), None, 2, false, false)
  }

  predicate IsVector(r: Option<Reg>) {
    r.Some? && r.value.cls.Vector?
  }

  // The scalar effective address, None when the operand is refused.
  function EaOf(m: MemOp, addrbits: nat, rfield: nat): Option<Ea> {
    if PureOffset(m) then Some(EmitOffset(m, addrbits, rfield))
    else if IsVector(m.base) || IsVector(UsedIndex(m)) then None
    else if Wide(m.base) || Wide(UsedIndex(m)) then
      if Ok32(m, addrbits) then
        ReorganisedInRange(m);
        Emit32(m, Reorganised(m), rfield)
      else None
    else Emit16(m, rfield)
  }

  lemma ReorganisedInRange(m: MemOp)
    ensures Reorganised(m).b >= -1 && Reorganised(m).i >= -1
  {
  }

  // The bytes that gencode puts out for it.
  function EaBytes(ea: Ea, offset: int): (r: seq<byte>)
    ensures |r| == EaSize(ea)
  {
    [ea.modrm] + (if ea.sib.Some? then [ea.sib.value] else []) + Little(offset, ea.bytes)
  }

  // ---- The decoder ----

  // A decoded operand and the index behind its last byte.
  datatype Decoded = Direct(reg: nat, next: nat) | Memory(op: MemOp, next: nat)

  const NO_FLAGS := EaFlags(false, false, false, false, false)

  function Gpr(n: nat): Option<Reg> {
    Some(Reg(Gpr32, n))
  }

  function DecodedMem(base: Option<Reg>, index: Option<Reg>, scale: int, offset: int, dispSize: nat): MemOp {
    MemOp(base, index, scale, offset, dispSize, NO_FLAGS, None, NoHint, false, false)
  }

  function Base16(rm: nat): Option<Reg> {
    if rm < 2 then Some(BX) else if rm < 4 then Some(BP) else if rm == 4 then Some(SI) else if rm == 5 then Some(DI)
    else if rm == 6 then Some(BP) else Some(BX)
  }

  function Index16(rm: nat): Option<Reg> {
    if rm == 0 || rm == 2 then Some(SI) else if rm == 1 || rm == 3 then Some(DI) else None
  }

  function Decode16(data: seq<byte>, pos: nat, mod: nat, rm: nat, segsize: nat): Decoded {
    var pure := rm == 6 && mod == 0;
    var base := if pure then None else Base16(rm);
    var mod' := if pure then 2 else mod;
    var disp := if mod' == 1 then Signed8(At(data, pos)) else if mod' == 2 then Word(data, pos) else 0;
    Memory(DecodedMem(base, Index16(rm), 1, disp, if pure && segsize != 16 then 16 else 0), pos + mod')
  }

  function Decode32(data: seq<byte>, pos: nat, mod: nat, rm: nat, segsize: nat, rexX: bool, rexB: bool): Decoded {
    var ext := if rexB then 8 else 0;
    if rm == 4 then
      var sib := At(data, pos);
      var scale, index, base := sib / 64, sib / 8 % 8, sib % 8;
      var i := if index == 4 && !rexX then None else Gpr(index + if rexX then 8 else 0);
      var pure := base == 5 && mod == 0;
      var b := if pure then None else Gpr(base + ext);
      Disp32(data, pos + 1, if pure then 2 else mod, b, i, if scale == 0 then 1 else if scale == 1 then 2
                                                            else if scale == 2 then 4 else 8,
             if segsize == 16 then 32 else 0)
    else
      var pure := rm == 5 && mod == 0;
      Disp32(data, pos, if pure then 2 else mod, if pure then None else Gpr(rm + ext), None, 0, if pure then 32 else 0)
  }

  function Disp32(data: seq<byte>, pos: nat, mod: nat, base: Option<Reg>, index: Option<Reg>, scale: int, size: nat)
    : Decoded
  {
    if mod == 1 then Memory(DecodedMem(base, index, scale, Signed8(At(data, pos)), size), pos + 1)
    else if mod == 2 then Memory(DecodedMem(base, index, scale, Signed32(Dword(data, pos)), size), pos + 4)
    else Memory(DecodedMem(base, index, scale, 0, size), pos)
  }

  // `pos` is the index behind the ModRM byte.
  function DecodeEa(data: seq<byte>, pos: nat, modrm: byte, asize: nat, segsize: nat, rexX: bool, rexB: bool): Decoded {
    var mod, rm := modrm / 64, modrm % 8;
    if mod == 3 then Direct(rm + if rexB then 8 else 0, pos)
    else if asize == 16 then Decode16(data, pos, mod, rm, segsize)
    else Decode32(data, pos, mod, rm, segsize, rexX, rexB)
  }
}
