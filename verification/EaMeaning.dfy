// Effective addresses in the processor's terms.

module EaMeaning {
  import opened Common
  import opened X86
  import opened EaSpec
  import opened EaRoundTrip
  import opened Positional

  // ---- What a ModRM byte and the bytes behind it address ----
  // Intel SDM, volume 2, section 2.1.5.

  function RegValue(cls: RegClass, n: nat, v: RegFile): int {
    v(Reg(cls, n))
  }

  // A number of n bytes, lowest first.
  function BytesValue(data: seq<byte>, pos: nat, n: nat): nat
    decreases n
  {
    if n == 0 then 0 else At(data, pos) as nat + 256 * BytesValue(data, pos + 1, n - 1)
  }

  // The same in two's complement, up to multiples of 2^(8 n).
  predicate Reads(x: int, data: seq<byte>, pos: nat, n: nat) {
    (n == 0 && x == 0) || (n == 1 && Equal(x, BytesValue(data, pos, 1), 256) && -128 <= x < 128)
    || (n == 2 && x == BytesValue(data, pos, 2)) || (n == 4 && Equal(x, BytesValue(data, pos, 4), TWO32))
  }

  predicate Equal(x: int, y: int, two: nat)
    requires two > 0
  {
    (x - y) % two == 0
  }

  // The number of displacement bytes for a mod field, where `bare` says that no register is the base.
  function DispBytes(mod: nat, bare: bool, wide: nat): nat {
    if mod == 1 then 1 else if mod == 2 || bare then wide else 0
  }

  lemma TwoBytes(data: seq<byte>, pos: nat)
    ensures BytesValue(data, pos, 1) == At(data, pos) as nat && BytesValue(data, pos, 2) == Word(data, pos)
    ensures BytesValue(data, pos, 4) == Dword(data, pos)
  {
    assert BytesValue(data, pos + 1, 1) == At(data, pos + 1) as nat;
    assert BytesValue(data, pos + 3, 1) == At(data, pos + 3) as nat;
    assert BytesValue(data, pos + 2, 2) == At(data, pos + 2) as nat + 256 * At(data, pos + 3) as nat;
  }

  lemma ReadsSigned8(data: seq<byte>, pos: nat)
    ensures Reads(Signed8(At(data, pos)), data, pos, 1)
  {
    TwoBytes(data, pos);
  }

  lemma ReadsSigned32(data: seq<byte>, pos: nat)
    ensures Reads(Signed32(Dword(data, pos)), data, pos, 4)
  {
    TwoBytes(data, pos);
  }

  // 32-bit addressing without a SIB byte: the base register has the number in rm; rm 5 under mod 0 is no register.
  lemma PlainAddress(data: seq<byte>, pos: nat, modrm: byte, segsize: nat, v: RegFile) returns (disp: int)
    requires modrm / 64 < 3 && modrm % 8 != 4
    ensures
      var bare := modrm / 64 == 0 && modrm % 8 == 5;
      var n := DispBytes(modrm / 64, bare, 4);
      var d := DecodeEa(data, pos, modrm, 32, segsize, false, false);
      && d.Memory? && d.next == pos + n && Reads(disp, data, pos, n)
      && Linear(d.op, v) == disp + if bare then 0 else RegValue(Gpr32, modrm % 8, v)
  {
    var d := DecodeEa(data, pos, modrm, 32, segsize, false, false);
    disp := d.op.offset;
    hide Signed8, Signed32, Dword, At;
    ReadsSigned8(data, pos);
    ReadsSigned32(data, pos);
  }

  // With a SIB byte: its scale field is the power of two that its index register is taken by, register 4 is no index,
  // and base 5 under mod 0 is no register.
  lemma SibAddress(data: seq<byte>, pos: nat, modrm: byte, segsize: nat, v: RegFile) returns (disp: int)
    requires modrm / 64 < 3 && modrm % 8 == 4
    ensures
      var sib := At(data, pos);
      var bare := modrm / 64 == 0 && sib % 8 == 5;
      var n := DispBytes(modrm / 64, bare, 4);
      var d := DecodeEa(data, pos, modrm, 32, segsize, false, false);
      && d.Memory? && d.next == pos + 1 + n && Reads(disp, data, pos + 1, n)
      && Linear(d.op, v) == disp + (if bare then 0 else RegValue(Gpr32, sib % 8, v))
           + if sib / 8 % 8 == 4 then 0 else Power(2, sib / 64) * RegValue(Gpr32, sib / 8 % 8, v)
  {
    var d := DecodeEa(data, pos, modrm, 32, segsize, false, false);
    disp := d.op.offset;
    Powers();
    hide Signed8, Signed32, Dword, At, Power;
    ReadsSigned8(data, pos + 1);
    ReadsSigned32(data, pos + 1);
  }

  lemma Powers()
    ensures Power(2, 0) == 1 && Power(2, 1) == 2 && Power(2, 2) == 4 && Power(2, 3) == 8
  {
  }

  // 16-bit addressing: the eight pairs of table 2-1.
  function Pair16(rm: nat, v: RegFile): int {
    var bx, bp, si, di := RegValue(Gpr16, 3, v), RegValue(Gpr16, 5, v), RegValue(Gpr16, 6, v), RegValue(Gpr16, 7, v);
    if rm == 0 then bx + si else if rm == 1 then bx + di else if rm == 2 then bp + si else if rm == 3 then bp + di
    else if rm == 4 then si else if rm == 5 then di else if rm == 6 then bp else bx
  }

  lemma ShortAddress(data: seq<byte>, pos: nat, modrm: byte, segsize: nat, v: RegFile) returns (disp: int)
    requires modrm / 64 < 3
    ensures
      var bare := modrm / 64 == 0 && modrm % 8 == 6;
      var n := DispBytes(modrm / 64, bare, 2);
      var d := DecodeEa(data, pos, modrm, 16, segsize, false, false);
      && d.Memory? && d.next == pos + n && Reads(disp, data, pos, n)
      && Linear(d.op, v) == disp + if bare then 0 else Pair16(modrm % 8, v)
  {
    var d := DecodeEa(data, pos, modrm, 16, segsize, false, false);
    disp := d.op.offset;
    hide Signed8, Word, At;
    ReadsSigned8(data, pos);
    TwoBytes(data, pos);
  }

  // ---- Which operands are accepted ----

  // Where the index register may be: any but esp, which only base and index changing places can help; scales are
  // 1, 2, 4 and 8, and without a base also 3, 5 and 9.
  predicate Encodable(m: MemOp) {
    var b, i, s := Num(m.base), Num(UsedIndex(m)), m.scale;
    UsedIndex(m).None? ||
    ((s == 1 || s == 2 || s == 4 || s == 8 || (m.base.None? && (s == 3 || s == 5 || s == 9)))
     && (i != ESP || (s == 1 && b != ESP)))
  }

  lemma Accepted32(m: MemOp, addrbits: nat, rfield: nat)
    requires !m.flags.mib && RegsOk(m) && (Wide(m.base) || Wide(UsedIndex(m)))
    requires !IsVector(m.base) && !IsVector(UsedIndex(m))
    ensures EaOf(m, addrbits, rfield).Some? <==> Ok32(m, addrbits) && Encodable(m)
  {
    hide ModFor, Modrm, Sib, Signed32, Bit3;
    if Ok32(m, addrbits) {
      ReorganisedInRange(m);
      FormFits(m);
      EmitFits(m, Reorganised(m), rfield);
    }
  }

  // What can be emitted of a form.
  predicate FormEncodable(f: Form) {
    f.i == -1 || (f.i != ESP && (f.s == 1 || f.s == 2 || f.s == 4 || f.s == 8))
  }

  lemma EmitFits(m: MemOp, f: Form, rfield: nat)
    requires f.b >= -1 && f.i >= -1
    ensures Emit32(m, f, rfield).Some? <==> FormEncodable(f)
  {
    hide ModFor, Modrm, Sib, Signed32, Bit3;
  }

  lemma FormFits(m: MemOp)
    requires !m.flags.mib && RegsOk(m) && !PureOffset(m)
    ensures FormEncodable(Reorganised(m)) <==> Encodable(m)
  {
    var f := SingleToBase(m, SwapByHint(m, Form(Num(m.base), Num(UsedIndex(m)), m.scale)));
    var g := SplitMultiple(m, f);
    SwapFits(m);
    SplitFits(m, f);
    KeepFits(m, g);
  }

  // The same of a form before it is reorganised.
  predicate FormReady(f: Form) {
    f.i == -1 ||
    ((f.s == 1 || f.s == 2 || f.s == 4 || f.s == 8 || (f.b == -1 && (f.s == 3 || f.s == 5 || f.s == 9)))
     && (f.i != ESP || (f.s == 1 && f.b != ESP)))
  }

  lemma SwapFits(m: MemOp)
    requires !PureOffset(m)
    ensures
      var f := SingleToBase(m, SwapByHint(m, Form(Num(m.base), Num(UsedIndex(m)), m.scale)));
      (FormReady(f) <==> Encodable(m)) && f.b >= -1 && f.i >= -1 && (f.b >= 0 || f.i >= 0)
  {
  }

  lemma SplitFits(m: MemOp, f: Form)
    requires f.b >= -1 && f.i >= -1 && (f.b >= 0 || f.i >= 0)
    ensures
      var g := SplitMultiple(m, f);
      (FormReady(f) <==> FormReady(g) && (g.i == -1 || g.s == 1 || g.s == 2 || g.s == 4 || g.s == 8))
      && g.b >= -1 && g.i >= -1 && (g.b >= 0 || g.i >= 0)
  {
  }

  lemma KeepFits(m: MemOp, g: Form)
    requires g.b >= -1 && g.i >= -1 && (g.b >= 0 || g.i >= 0)
    ensures
      FormEncodable(EspToBase(KeepIndex(m, g))) <==>
      FormReady(g) && (g.i == -1 || g.s == 1 || g.s == 2 || g.s == 4 || g.s == 8)
  {
  }

  predicate IsPair(m: MemOp, a: Reg, b: Reg) {
    (m.base == Some(a) && UsedIndex(m) == Some(b)) || (m.base == Some(b) && UsedIndex(m) == Some(a))
  }

  predicate IsOne(m: MemOp, a: Reg) {
    (m.base == Some(a) && UsedIndex(m).None?) || (m.base.None? && UsedIndex(m) == Some(a))
  }

  // 16-bit operands: one of the eight combinations, taken once, and no wider displacement asked for.
  lemma Accepted16(m: MemOp, addrbits: nat, rfield: nat)
    requires !PureOffset(m) && !Wide(m.base) && !Wide(UsedIndex(m)) && !IsVector(m.base) && !IsVector(UsedIndex(m))
    ensures
      EaOf(m, addrbits, rfield).Some? <==>
      && m.dispSize != 32 && m.dispSize != 64 && (m.scale == 1 || UsedIndex(m).None?)
      && (IsPair(m, Reg(Gpr16, 3), Reg(Gpr16, 6)) || IsPair(m, Reg(Gpr16, 3), Reg(Gpr16, 7))
          || IsPair(m, Reg(Gpr16, 5), Reg(Gpr16, 6)) || IsPair(m, Reg(Gpr16, 5), Reg(Gpr16, 7))
          || IsOne(m, Reg(Gpr16, 6)) || IsOne(m, Reg(Gpr16, 7)) || IsOne(m, Reg(Gpr16, 5)) || IsOne(m, Reg(Gpr16, 3)))
  {
    hide ModFor, Modrm, Signed16;
  }

  // ---- How long the displacement is ----

  // The displacement takes one byte if it fits in one, signed, and is known and not asked to be longer; none if it is
  // zero and there is a form without one; and the full size otherwise.
  lemma ShortestDisplacement(m: MemOp, addrbits: nat, rfield: nat, ea: Ea)
    requires EaOf(m, addrbits, rfield) == Some(ea) && RegsOk(m) && SizeFits(m, addrbits) && !PureOffset(m)
    requires !m.flags.byteOffs
    ensures
      var base := if addrbits == 16 then true else Reorganised(m).b != -1;
      var full := if addrbits == 16 then 2 else 4;
      var fits := !m.relocated && !m.forward && !m.flags.wordOffs && (m.offset + 128) % Width(addrbits) < 256;
      var zero := fits && m.offset % Width(addrbits) == 0;
      var noBare := if addrbits == 16 then IsOne(m, Reg(Gpr16, 5)) else Reorganised(m).b % 8 == 5;
      ea.bytes == if !base || !fits then full else if zero && !noBare then 0 else 1
  {
    hide Signed8, Reorganised, Modrm, Sib;
    if addrbits == 16 {
      WordRange(m.offset);
      BareBp(m);
    } else {
      DwordRange(m.offset);
      ReorganisedInRange(m);
    }
  }

  lemma WordRange(x: int)
    ensures -128 <= Signed16(x) <= 127 <==> (x + 128) % TWO16 < 256
    ensures Signed16(x) == 0 <==> x % TWO16 == 0
  {
    var q, r := x / TWO16, x % TWO16;
    assert x == TWO16 * q + r;
    Shifted(q, r, TWO16);
  }

  lemma DwordRange(x: int)
    ensures -128 <= Signed32(x) <= 127 <==> (x + 128) % TWO32 < 256
    ensures Signed32(x) == 0 <==> x % TWO32 == 0
  {
    var q, r := x / TWO32, x % TWO32;
    assert x == TWO32 * q + r;
    Shifted(q, r, TWO32);
  }

  lemma Shifted(q: int, r: nat, two: nat)
    requires r < two && (two == TWO16 || two == TWO32)
    ensures (two * q + r + 128) % two == if r + 128 < two then r + 128 else r + 128 - two
  {
  }

  lemma BareBp(m: MemOp)
    requires Emit16(m, 0).Some?
    ensures Rm16(Order16(m).0, Order16(m).1).value == 6 <==> IsOne(m, Reg(Gpr16, 5))
  {
  }

  // A SIB byte is put out only for an index register, for esp as the base, or if it is asked for.
  lemma SibOnlyIfNeeded(m: MemOp, rfield: nat, ea: Ea)
    requires EaOf(m, 32, rfield) == Some(ea) && RegsOk(m) && UsedIndex(m).None? && !m.flags.sib && !m.flags.mib
    requires !(m.flags.timesTwo && m.hint.NotBase?)
    ensures ea.sib.Some? <==> m.base.Some? && m.base.value.cls.Gpr32? && m.base.value.num % 8 == ESP
  {
    hide ModFor, Modrm, Sib, Signed32, Bit3;
    if m.base.Some? && Wide(m.base) {
      ReorganisedInRange(m);
      assert Reorganised(m) == Form(Num(m.base), -1, m.scale);
    }
  }

  // ---- The address size ----

  predicate SizeAllows(p: Asize, bits: nat, size: nat) {
    match p
    case NoAsize => true
    case A16 => size == 16
    case A32 => size == 32
    case A64 => false
    case ASP => size != bits
  }

  predicate RegAllows(r: Option<Reg>, size: nat) {
    r.Some? ==>
      (r.value.cls.Gpr16? ==> size == 16) && (r.value.cls.Gpr32? ==> size == 32) && !r.value.cls.Gpr64?
  }

  // Registers of the size, or an offset that has it.
  predicate MemAllows(m: MemOp, size: nat)
    requires size > 0
  {
    if PureOffset(m) then m.dispSize <= 8 || m.dispSize / size % 2 == 1
    else RegAllows(m.base, size) && RegAllows(UsedIndex(m), size)
  }

  predicate Possible(p: Asize, bits: nat, mems: seq<MemOp>, size: nat)
    requires size > 0
  {
    SizeAllows(p, bits, size) && forall i :: 0 <= i < |mems| ==> MemAllows(mems[i], size)
  }

  // The size of the mode if the prefix and all operands allow it, else the other one if they allow that.
  lemma AddressSizeExactly(p: Asize, bits: nat, mems: seq<MemOp>)
    requires bits == 16 || bits == 32
    ensures
      AddressSize(p, bits, mems) ==
      if Possible(p, bits, mems, bits) then Some(bits)
      else if Possible(p, bits, mems, 48 - bits) then Some(48 - bits) else None
  {
    hide AllSizes, MemAllows;
    SizesExactly(p, bits, mems);
  }

  lemma {:induction false} SizesExactly(p: Asize, bits: nat, mems: seq<MemOp>)
    requires bits == 16 || bits == 32
    ensures AllSizes(PrefixSizes(p, bits), mems).s16 <==> Possible(p, bits, mems, 16)
    ensures AllSizes(PrefixSizes(p, bits), mems).s32 <==> Possible(p, bits, mems, 32)
  {
    if mems != [] {
      var init, last := mems[..|mems| - 1], mems[|mems| - 1];
      SizesExactly(p, bits, init);
      RestrictExactly(AllSizes(PrefixSizes(p, bits), init), last);
      hide MemAllows, RestrictBy;
      LastAllows(p, bits, mems, 16);
      LastAllows(p, bits, mems, 32);
    }
  }

  lemma LastAllows(p: Asize, bits: nat, mems: seq<MemOp>, size: nat)
    requires mems != [] && size > 0
    ensures
      Possible(p, bits, mems, size) <==>
      Possible(p, bits, mems[..|mems| - 1], size) && MemAllows(mems[|mems| - 1], size)
  {
    hide MemAllows;
    var init := mems[..|mems| - 1];
    forall i | 0 <= i < |init| ensures init[i] == mems[i] {
    }
  }

  lemma RestrictExactly(s: Sizes, m: MemOp)
    ensures RestrictBy(s, m).s16 <==> s.s16 && MemAllows(m, 16)
    ensures RestrictBy(s, m).s32 <==> s.s32 && MemAllows(m, 32)
  {
  }
}
