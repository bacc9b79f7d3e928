// The decoder reads back the address.

module EaRoundTrip {
  import opened Common
  import opened X86
  import opened EaSpec

  ghost predicate Congruent(x: int, y: int, two: nat)
    requires two > 0
  {
    (x - y) % two == 0
  }

  function Width(addrbits: nat): nat {
    if addrbits == 16 then TWO16 else TWO32
  }

  // General registers are numbered 0 to 15.
  predicate RegOk(r: Option<Reg>) {
    r.Some? ==> r.value.num < 16
  }

  predicate RegsOk(m: MemOp) {
    RegOk(m.base) && RegOk(m.index)
  }

  // ---- Reorganisation keeps the address ----

  function Value(f: Form, v: RegFile): int {
    (if f.b >= 0 then v(Reg(Gpr32, f.b)) else 0) + (if f.i >= 0 then f.s * v(Reg(Gpr32, f.i)) else 0)
  }

  predicate FormOk(f: Form) {
    -1 <= f.b < 16 && -1 <= f.i < 16 && (f.b >= 0 || f.i >= 0)
  }

  lemma SwapKeeps(m: MemOp, f: Form, v: RegFile)
    requires FormOk(f)
    ensures FormOk(SwapByHint(m, f)) && Value(SwapByHint(m, f), v) == Value(f, v)
  {
  }

  lemma SingleKeeps(m: MemOp, f: Form, v: RegFile)
    requires FormOk(f)
    ensures FormOk(SingleToBase(m, f)) && Value(SingleToBase(m, f), v) == Value(f, v)
  {
  }

  lemma OneLess(s: int, x: int)
    ensures x + (s - 1) * x == s * x
  {
  }

  lemma MibKeeps(m: MemOp, f: Form, v: RegFile)
    requires FormOk(f)
    ensures FormOk(MibSplit(m, f)) && Value(MibSplit(m, f), v) == Value(f, v)
  {
    if f.i >= 0 {
      OneLess(f.s, v(Reg(Gpr32, f.i)));
    }
  }

  lemma SplitKeeps(m: MemOp, f: Form, v: RegFile)
    requires FormOk(f)
    ensures FormOk(SplitMultiple(m, f)) && Value(SplitMultiple(m, f), v) == Value(f, v)
  {
    if f.i >= 0 {
      OneLess(f.s, v(Reg(Gpr32, f.i)));
    }
  }

  lemma KeepIndexKeeps(m: MemOp, f: Form, v: RegFile)
    requires FormOk(f)
    ensures FormOk(KeepIndex(m, f)) && Value(KeepIndex(m, f), v) == Value(f, v)
  {
  }

  lemma EspKeeps(f: Form, v: RegFile)
    requires FormOk(f)
    ensures FormOk(EspToBase(f)) && Value(EspToBase(f), v) == Value(f, v)
  {
  }

  // All the base/index swaps and the 2x, 3x, 5x and 9x rewritings together.
  lemma ReorganisedKeeps(m: MemOp, v: RegFile)
    requires RegsOk(m) && Ok32(m, 32) && !PureOffset(m)
    ensures FormOk(Reorganised(m))
    ensures m.offset + Value(Reorganised(m), v) == Linear(m, v)
  {
    hide SwapByHint, SingleToBase, MibSplit, SplitMultiple, KeepIndex, EspToBase;
    var f0 := Form(Num(m.base), Num(UsedIndex(m)), m.scale);
    assert m.offset + Value(f0, v) == Linear(m, v);
    var f1 := SwapByHint(m, f0);
    SwapKeeps(m, f0, v);
    var f2 := SingleToBase(m, f1);
    SingleKeeps(m, f1, v);
    MibKeeps(m, f2, v);
    SplitKeeps(m, f2, v);
    KeepIndexKeeps(m, SplitMultiple(m, f2), v);
    EspKeeps(if m.flags.mib then MibSplit(m, f2) else KeepIndex(m, SplitMultiple(m, f2)), v);
  }

  // ---- Reading the bytes back ----

  // The displacement that n bytes stand for.
  function Displacement(offset: int, n: nat, addrbits: nat): int {
    if n == 0 then 0 else if n == 1 then Signed8(offset) else if n == 2 then offset % TWO16 else Signed32(offset)
  }

  // The bytes behind ModRM, at index pos of the buffer.
  ghost predicate Tail(data: seq<byte>, pos: nat, ea: Ea, offset: int) {
    Holds(data, pos, (if ea.sib.Some? then [ea.sib.value] else []) + Little(offset, ea.bytes))
  }

  lemma ModrmFields(mod: nat, reg: nat, rm: nat)
    requires mod < 4
    ensures Modrm(mod, reg, rm) / 64 == mod && Modrm(mod, reg, rm) % 8 == rm % 8
    ensures Modrm(mod, reg, rm) / 8 % 8 == reg % 8
  {
  }

  lemma SibFields(scale: nat, index: nat, base: nat)
    requires scale < 4 && index < 8 && base < 8
    ensures
      var s := Sib(scale, index, base);
      s / 64 == scale && s / 8 % 8 == index && s % 8 == base
  {
    var s: nat := Sib(scale, index, base);
    assert s == 64 * scale + 8 * index + base;
    assert s / 8 == 8 * scale + index;
  }

  lemma ReadDisp32(data: seq<byte>, pos: nat, offset: int, n: nat, base: Option<Reg>, index: Option<Reg>, scale: int,
                   size: nat)
    requires (n == 0 || n == 1 || n == 4) && Holds(data, pos, Little(offset, n))
    ensures Disp32(data, pos, if n == 4 then 2 else n, base, index, scale, size)
         == Memory(DecodedMem(base, index, scale, Displacement(offset, n, 32), size), pos + n)
  {
    hide Holds, Little;
    ReadBack(data, pos, offset, n);
    SameSigned8(offset);
    SameSigned32(offset);
  }

  lemma SameSigned8(x: int)
    ensures Signed8(x % 256) == Signed8(x)
  {
  }

  lemma SameSigned32(x: int)
    ensures Signed32(x % TWO32) == Signed32(x)
  {
  }

  // What the decoder makes of the bytes of a 32-bit form.
  lemma Decode32Form(m: MemOp, f: Form, rfield: nat, ea: Ea, data: seq<byte>, pos: nat, segsize: nat, v: RegFile)
    requires FormOk(f) && Emit32(m, f, rfield) == Some(ea) && Tail(data, pos, ea, m.offset)
    ensures ea.bytes == 0 || ea.bytes == 1 || ea.bytes == 4
    ensures ea.bytes == 0 ==> Signed32(m.offset) == 0
    ensures
      var d := DecodeEa(data, pos, ea.modrm, 32, segsize, ea.rexX, ea.rexB);
      && d.Memory? && d.next == pos + EaSize(ea) - 1
      && Linear(d.op, v) == Displacement(m.offset, ea.bytes, 32) + Value(f, v)
  {
    hide Signed32, Holds, Little, Modrm, Sib;
    var rm := if f.b == -1 then 5 else f.b % 8;
    var mod := if f.b == -1 then 0 else ModFor(m, rm, EBP, Signed32(m.offset));
    if ea.sib.None? {
      assert [] + Little(m.offset, ea.bytes) == Little(m.offset, ea.bytes);
      ModrmFields(mod, rfield, rm);
      Decode32Plain(m, f, ea, data, pos, segsize, v, mod, rm);
    } else {
      HoldsPart(data, pos, [ea.sib.value], Little(m.offset, ea.bytes));
      HoldsAt(data, pos, [ea.sib.value], 0);
      ModrmFields(mod, rfield, 4);
      var sc := ScaleBits(if f.i == -1 then 1 else f.s).value;
      SibFields(sc, if f.i == -1 then 4 else f.i % 8, rm);
      Decode32Sib(m, f, ea, data, pos, segsize, v, mod, rm, sc);
    }
  }

  lemma Decode32Plain(m: MemOp, f: Form, ea: Ea, data: seq<byte>, pos: nat, segsize: nat, v: RegFile, mod: nat, rm: nat)
    requires FormOk(f) && f.i == -1 && f.b % 8 != ESP && rm == f.b % 8
    requires ea.modrm / 64 == mod < 3 && ea.modrm % 8 == rm && ea.sib.None? && ea.rexB == Bit3(f.b)
    requires ea.bytes == (if mod == 2 then 4 else mod) && Holds(data, pos, Little(m.offset, ea.bytes))
    requires rm == 5 ==> mod != 0
    ensures
      var d := DecodeEa(data, pos, ea.modrm, 32, segsize, ea.rexX, ea.rexB);
      && d.Memory? && d.next == pos + ea.bytes
      && Linear(d.op, v) == Displacement(m.offset, ea.bytes, 32) + Value(f, v)
  {
    hide Holds, Little, Signed8, Signed32, Disp32;
    ReadDisp32(data, pos, m.offset, ea.bytes, Gpr(f.b), None, 0, 0);
  }

  lemma Decode32Sib(m: MemOp, f: Form, ea: Ea, data: seq<byte>, pos: nat, segsize: nat, v: RegFile, mod: nat, rm: nat,
                    sc: nat)
    requires FormOk(f) && f.i != ESP && ScaleBits(if f.i == -1 then 1 else f.s) == Some(sc)
    requires rm == (if f.b == -1 then 5 else f.b % 8) && (f.b == -1 ==> mod == 0) && (rm == 5 && f.b != -1 ==> mod != 0)
    requires ea.modrm / 64 == mod < 3 && ea.modrm % 8 == 4 && ea.sib.Some?
    requires ea.rexB == Bit3(f.b) && ea.rexX == Bit3(f.i)
    requires
      var s := At(data, pos);
      s / 64 == sc && s / 8 % 8 == (if f.i == -1 then 4 else f.i % 8) && s % 8 == rm
    requires ea.bytes == (if f.b == -1 || mod == 2 then 4 else mod)
    requires Holds(data, pos + 1, Little(m.offset, ea.bytes))
    ensures
      var d := DecodeEa(data, pos, ea.modrm, 32, segsize, ea.rexX, ea.rexB);
      && d.Memory? && d.next == pos + 1 + ea.bytes
      && Linear(d.op, v) == Displacement(m.offset, ea.bytes, 32) + Value(f, v)
  {
    hide Holds, Little, Signed8, Signed32, Disp32, At;
    var base := if f.b == -1 then None else Gpr(f.b);
    var index := if f.i == -1 then None else Gpr(f.i);
    var scale := if f.i == -1 then 1 else f.s;
    ReadDisp32(data, pos + 1, m.offset, ea.bytes, base, index, scale, if segsize == 16 then 32 else 0);
  }

  lemma Decode16Form(m: MemOp, rfield: nat, ea: Ea, data: seq<byte>, pos: nat, segsize: nat, v: RegFile)
    requires !PureOffset(m) && Emit16(m, rfield) == Some(ea) && Tail(data, pos, ea, m.offset)
    ensures ea.bytes <= 2 && ea.sib.None?
    ensures ea.bytes == 0 ==> Signed16(m.offset) == 0
    ensures
      var d := DecodeEa(data, pos, ea.modrm, 16, segsize, ea.rexX, ea.rexB);
      && d.Memory? && d.next == pos + ea.bytes
      && Linear(d.op, v) == Displacement(m.offset, ea.bytes, 16) + (Linear(m, v) - m.offset)
  {
    hide Signed16, Signed8, Holds, Little, Modrm, Order16, Rm16, Base16, Index16;
    var (b, i) := Order16(m);
    OrderKeeps(m, v);
    var rm := Rm16(b, i).value;
    Rm16Reads(b, i);
    var mod := ModFor(m, rm, 6, Signed16(m.offset));
    assert [] + Little(m.offset, ea.bytes) == Little(m.offset, ea.bytes);
    ModrmFields(mod, rfield, rm);
    ReadBack(data, pos, m.offset, mod);
    SameSigned8(m.offset);
  }

  lemma OrderKeeps(m: MemOp, v: RegFile)
    requires m.scale == 1 || UsedIndex(m).None?
    ensures
      var (b, i) := Order16(m);
      Linear(m, v) - m.offset == (if b.Some? then v(b.value) else 0) + (if i.Some? then v(i.value) else 0)
  {
  }

  lemma Rm16Reads(b: Option<Reg>, i: Option<Reg>)
    requires Rm16(b, i).Some?
    ensures Rm16(b, i).value < 8 && Base16(Rm16(b, i).value) == b && Index16(Rm16(b, i).value) == i
  {
  }

  // An absolute address.  A mandatory SIB byte has no place in 16-bit addressing.
  lemma DecodeOffset(m: MemOp, addrbits: nat, rfield: nat, data: seq<byte>, pos: nat, segsize: nat, v: RegFile)
    requires PureOffset(m) && (addrbits == 16 || addrbits == 32) && !(m.flags.sib && addrbits == 16)
    requires Tail(data, pos, EmitOffset(m, addrbits, rfield), m.offset)
    ensures
      var ea := EmitOffset(m, addrbits, rfield);
      var d := DecodeEa(data, pos, ea.modrm, addrbits, segsize, ea.rexX, ea.rexB);
      && ea.bytes == (if addrbits == 16 then 2 else 4)
      && d.Memory? && d.next == pos + EaSize(ea) - 1
      && Linear(d.op, v) == Displacement(m.offset, ea.bytes, addrbits)
  {
    hide Signed32, Signed8, Holds, Little, Modrm, Sib, At, Word, Dword;
    var ea := EmitOffset(m, addrbits, rfield);
    if m.flags.sib {
      HoldsPart(data, pos, [ea.sib.value], Little(m.offset, 4));
      HoldsAt(data, pos, [ea.sib.value], 0);
      ModrmFields(0, rfield, 4);
      SibFields(0, 4, 5);
      ReadBack(data, pos + 1, m.offset, 4);
      SameSigned32(m.offset);
    } else {
      assert [] + Little(m.offset, ea.bytes) == Little(m.offset, ea.bytes);
      ModrmFields(0, rfield, if addrbits != 16 then 5 else 6);
      ReadBack(data, pos, m.offset, ea.bytes);
      SameSigned32(m.offset);
    }
  }

  // ---- The address survives, and exactly when ----

  // The operand gets a byte displacement whatever its offset: the flag asks for one, and there is a base
  // register to add it to.
  predicate ForcedByte(m: MemOp) {
    && m.flags.byteOffs && !m.flags.wordOffs && !PureOffset(m)
    && (Wide(m.base) || Wide(UsedIndex(m)) ==> Reorganised(m).b != -1)
  }

  // A displacement forced to one byte loses what does not fit in a signed byte; nothing else is lost.
  predicate DisplacementFits(m: MemOp, addrbits: nat) {
    ForcedByte(m) ==> (m.offset + 128) % Width(addrbits) < 256
  }

  lemma FitsByte(x: int, two: nat)
    requires two == TWO16 || two == TWO32
    ensures (Signed8(x) - x) % two == 0 <==> (x + 128) % two < 256
  {
    var k, r := (x + 128) / two, (x + 128) % two;
    assert x + 128 == two * k + r;
    if r < 256 {
      SameLowByte(x, r - 128, 0 - two / 256 * k);
    }
  }

  lemma SameLowByte(x: int, y: int, k: int)
    requires y - x == 256 * k && -128 <= y <= 127
    ensures Signed8(x) == y
  {
    var q, r := y / 256, y % 256;
    assert x == 256 * (q - k) + r;
    assert x % 256 == r;
  }

  lemma FitsWithin(x: int, y: int)
    requires (y - x) % TWO32 == 0 && -128 <= y <= 127
    ensures Signed8(x) == y
  {
    SameLowByte(x, y, 0x100_0000 * ((y - x) / TWO32));
  }

  lemma FitsWithin16(x: int, y: int)
    requires (y - x) % TWO16 == 0 && -128 <= y <= 127
    ensures Signed8(x) == y
  {
    SameLowByte(x, y, 0x100 * ((y - x) / TWO16));
  }

  // The registers and the address size belong together: what add_asp establishes.
  predicate SizeFits(m: MemOp, addrbits: nat) {
    && (addrbits == 16 || addrbits == 32)
    && (!PureOffset(m) && !Wide(m.base) && !Wide(UsedIndex(m)) ==> addrbits == 16)
  }

  ghost predicate Recovers(m: MemOp, ea: Ea, addrbits: nat, segsize: nat, data: seq<byte>, pos: nat, v: RegFile) {
    var d := DecodeEa(data, pos, ea.modrm, addrbits, segsize, ea.rexX, ea.rexB);
    && d.Memory? && d.next == pos + EaSize(ea) - 1
    && (Congruent(Linear(d.op, v), Linear(m, v), Width(addrbits)) <==> DisplacementFits(m, addrbits))
  }

  // A byte displacement is either forced or fits.
  lemma ByteBytes(m: MemOp, addrbits: nat, rfield: nat, ea: Ea)
    requires EaOf(m, addrbits, rfield) == Some(ea) && SizeFits(m, addrbits)
    ensures ForcedByte(m) ==> ea.bytes == 1
    ensures ea.bytes == 1 && !ForcedByte(m) ==> (Signed8(m.offset) - m.offset) % Width(addrbits) == 0
  {
    hide Signed8, Signed16, Signed32, Reorganised, Modrm, Sib, Rm16, Order16;
    if ea.bytes == 1 && !ForcedByte(m) {
      if Wide(m.base) || Wide(UsedIndex(m)) {
        ReorganisedInRange(m);
        FitsWithin(m.offset, Signed32(m.offset));
      } else {
        FitsWithin16(m.offset, Signed16(m.offset));
      }
    }
  }

  lemma DisplacementKeeps(m: MemOp, addrbits: nat, rfield: nat, ea: Ea)
    requires EaOf(m, addrbits, rfield) == Some(ea) && SizeFits(m, addrbits)
    requires if addrbits == 16 then ea.bytes <= 2 else ea.bytes == 0 || ea.bytes == 1 || ea.bytes == 4
    requires ea.bytes == 0 ==> (if addrbits == 16 then Signed16(m.offset) else Signed32(m.offset)) == 0
    ensures
      (Displacement(m.offset, ea.bytes, addrbits) - m.offset) % Width(addrbits) == 0 <==> DisplacementFits(m, addrbits)
  {
    hide EaOf, SizeFits, ForcedByte, Signed8, Signed16, Signed32;
    ByteBytes(m, addrbits, rfield, ea);
    FitsByte(m.offset, Width(addrbits));
    WordKeeps(m.offset);
  }

  lemma WordKeeps(x: int)
    ensures (x % TWO16 - x) % TWO16 == 0
  {
  }

  // Main result: decoding the bytes of an accepted operand consumes exactly those bytes, and yields the
  // same address for every register file if and only if no forced byte displacement is too small.
  lemma AddressRoundTrip(m: MemOp, addrbits: nat, rfield: nat, ea: Ea, data: seq<byte>, pos: nat, segsize: nat,
                         v: RegFile)
    requires EaOf(m, addrbits, rfield) == Some(ea) && RegsOk(m) && SizeFits(m, addrbits)
    requires !(PureOffset(m) && m.flags.sib && addrbits == 16)
    requires Tail(data, pos, ea, m.offset)
    ensures Recovers(m, ea, addrbits, segsize, data, pos, v)
  {
    hide Signed8, Signed16, Signed32, DecodeEa, Emit32, Emit16, EmitOffset, Reorganised, Tail, Displacement, Width,
      DisplacementFits, RegsOk;
    var d := DecodeEa(data, pos, ea.modrm, addrbits, segsize, ea.rexX, ea.rexB);
    if PureOffset(m) {
      DecodeOffset(m, addrbits, rfield, data, pos, segsize, v);
    } else if Wide(m.base) || Wide(UsedIndex(m)) {
      ReorganisedInRange(m);
      ReorganisedKeeps(m, v);
      Decode32Form(m, Reorganised(m), rfield, ea, data, pos, segsize, v);
    } else {
      Decode16Form(m, rfield, ea, data, pos, segsize, v);
    }
    DisplacementKeeps(m, addrbits, rfield, ea);
    assert Linear(d.op, v) - Linear(m, v) == Displacement(m.offset, ea.bytes, addrbits) - m.offset;
  }

  // With a mandatory SIB byte and 16-bit addressing the decoder never sees the end of the operand.
  lemma SixteenBitSibIsLost(m: MemOp, rfield: nat, data: seq<byte>, pos: nat, segsize: nat)
    requires PureOffset(m) && m.flags.sib
    ensures
      var ea := EmitOffset(m, 16, rfield);
      DecodeEa(data, pos, ea.modrm, 16, segsize, false, false).next != pos + EaSize(ea) - 1
  {
    ModrmFields(0, rfield, 4);
  }

  // The decoder stops where the encoder stopped, with that one exception.
  lemma ConsumesExactly(m: MemOp, addrbits: nat, rfield: nat, ea: Ea, data: seq<byte>, pos: nat, segsize: nat)
    requires EaOf(m, addrbits, rfield) == Some(ea) && RegsOk(m) && SizeFits(m, addrbits)
    requires Tail(data, pos, ea, m.offset)
    ensures
      DecodeEa(data, pos, ea.modrm, addrbits, segsize, ea.rexX, ea.rexB).next == pos + EaSize(ea) - 1 <==>
      !(PureOffset(m) && m.flags.sib && addrbits == 16)
  {
    hide Signed8, Signed16, Signed32, DecodeEa, Emit32, Emit16, Reorganised, Tail;
    if PureOffset(m) && m.flags.sib && addrbits == 16 {
      SixteenBitSibIsLost(m, rfield, data, pos, segsize);
    } else {
      AddressRoundTrip(m, addrbits, rfield, ea, data, pos, segsize, (r: Reg) => 0);
    }
  }

  // [byte eax + 256]: accepted, and 256 is put out as the byte 0.
  lemma WideDisplacementIsLost()
    ensures
      var m := MemOp(Some(Reg(Gpr32, 0)), None, 0, 256, 0, NO_FLAGS.(byteOffs := true), None, NoHint, false, false);
      EaOf(m, 32, 0).Some? && ForcedByte(m) && !DisplacementFits(m, 32)
      && EaBytes(EaOf(m, 32, 0).value, 256) == [0x40, 0]
  {
    var m := MemOp(Some(Reg(Gpr32, 0)), None, 0, 256, 0, NO_FLAGS.(byteOffs := true), None, NoHint, false, false);
    assert Reorganised(m) == Form(0, -1, 0);
    assert Little(256, 1) == [0];
  }

  // [0x1234] in 16 bits with a SIB byte: accepted as six bytes, and one is read.
  lemma MandatorySibIsLost()
    ensures
      var m := MemOp(None, None, 0, 0x1234, 0, NO_FLAGS.(sib := true), None, NoHint, false, false);
      EaOf(m, 16, 0) == Some(Ea(0x04, Some(0x25), 4, false, false)) && SizeFits(m, 16) && RegsOk(m)
    ensures EaBytes(Ea(0x04, Some(0x25), 4, false, false), 0x1234) == [0x04, 0x25, 0x34, 0x12, 0, 0]
    ensures DecodeEa([0x04, 0x25, 0x34, 0x12, 0, 0], 1, 0x04, 16, 32, false, false).next == 1
  {
    assert Little(0x1234, 4) == [0x34, 0x12, 0, 0] by {
      assert Little(0x12, 3) == [0x12] + Little(0, 2);
      assert Little(0, 2) == [0] + Little(0, 1);
    }
    hide Little, At, Word;
  }

  // ---- The address size ----

  // Address sizes still possible, as the flags 16 and 32 (64 never is, outside long mode).
  datatype Sizes = Sizes(s16: bool, s32: bool)

  function PrefixSizes(p: Asize, bits: nat): Sizes {
    match p
    case NoAsize => Sizes(true, true)
    case A16 => Sizes(true, false)
    case A32 => Sizes(false, true)
    case A64 => Sizes(false, false)
    case ASP => if bits == 32 then Sizes(true, false) else Sizes(false, true)
  }

  function Restrict(s: Sizes, r: Option<Reg>): Sizes {
    if r.None? then s
    else if r.value.cls.Gpr16? then Sizes(s.s16, false)
    else if r.value.cls.Gpr32? then Sizes(false, s.s32)
    else if r.value.cls.Gpr64? then Sizes(false, false)
    else s
  }

  function RestrictBy(s: Sizes, m: MemOp): Sizes {
    if PureOffset(m) then
      if m.dispSize > 8 then Sizes(s.s16 && m.dispSize / 16 % 2 == 1, s.s32 && m.dispSize / 32 % 2 == 1) else s
    else Restrict(Restrict(s, m.base), UsedIndex(m))
  }

  function AllSizes(s: Sizes, mems: seq<MemOp>): Sizes {
    if mems == [] then s else RestrictBy(AllSizes(s, mems[..|mems| - 1]), mems[|mems| - 1])
  }

  // None is the reported error "impossible combination of address sizes".
  function AddressSize(p: Asize, bits: nat, mems: seq<MemOp>): (r: Option<nat>)
    requires bits == 16 || bits == 32
    ensures r.Some? ==> r.value == 16 || r.value == 32
  {
    var s := AllSizes(PrefixSizes(p, bits), mems);
    if (if bits == 16 then s.s16 else s.s32) then Some(bits)
    else if (if bits == 16 then s.s32 else s.s16) then Some(48 - bits)
    else None
  }

  lemma {:induction false} SizesAllow(s: Sizes, mems: seq<MemOp>, k: nat)
    requires k < |mems|
    ensures AllSizes(s, mems).s32 ==> RestrictBy(Sizes(true, true), mems[k]).s32
    ensures AllSizes(s, mems).s16 ==> RestrictBy(Sizes(true, true), mems[k]).s16
  {
    if k < |mems| - 1 {
      SizesAllow(s, mems[..|mems| - 1], k);
    }
  }

  // The size add_asp settles on fits every memory operand that process_ea then accepts.
  lemma AddressSizeFits(p: Asize, bits: nat, mems: seq<MemOp>, k: nat, rfield: nat)
    requires (bits == 16 || bits == 32) && k < |mems| && AddressSize(p, bits, mems).Some?
    requires EaOf(mems[k], AddressSize(p, bits, mems).value, rfield).Some?
    ensures SizeFits(mems[k], AddressSize(p, bits, mems).value)
  {
    hide AllSizes, ModFor, Signed16, Rm16;
    SizesAllow(PrefixSizes(p, bits), mems, k);
    var m := mems[k];
    if !PureOffset(m) && !Wide(m.base) && !Wide(UsedIndex(m)) {
      assert Reg16(m.base) && Reg16(UsedIndex(m));
    }
  }
}
