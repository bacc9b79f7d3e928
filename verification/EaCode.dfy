// process_ea, do_ea and add_asp as loops and updates of locals.

module EaCode {
  import opened Common
  import opened X86
  import opened EaSpec
  import opened EaRoundTrip

  method ProcessEa(m: MemOp, addrbits: nat, rfield: nat) returns (r: Option<Ea>)
    ensures r == EaOf(m, addrbits, rfield)
  {
    var i, b, s := m.index, m.base, m.scale;
    if b.None? && (i.None? || s == 0) {
      // a pure offset
      if m.flags.sib {
        return Some(Ea(Modrm(0, rfield, 4), Some(Sib(0, 4, 5)), 4, false, false));
      }
      var rm := if addrbits != 16 then 5 else 6;
      return Some(Ea(Modrm(0, rfield, rm), None, if addrbits != 16 then 4 else 2, false, false));
    }
    if s == 0 {
      i := None;
    }
    assert i == UsedIndex(m);
    if IsVector(i) || IsVector(b) {
      return None;
    }
    if Wide(i) || Wide(b) {
      r := Process32(m, i, addrbits, rfield);
    } else {
      r := Process16(m, i, rfield);
    }
  }

  method Process32(m: MemOp, i: Option<Reg>, addrbits: nat, rfield: nat) returns (r: Option<Ea>)
    requires i == UsedIndex(m) && !PureOffset(m)
    requires Wide(i) || Wide(m.base)
    ensures Reorganised(m).b >= -1 && Reorganised(m).i >= -1
    ensures r == if Ok32(m, addrbits) then Emit32(m, Reorganised(m), rfield) else None
  {
    ReorganisedInRange(m);
    if i.Some? && !i.value.cls.Gpr32? {
      return None;
    }
    if m.base.Some? && !m.base.value.cls.Gpr32? {
      return None;
    }
    if m.dispSize == 16 || m.dispSize == 64 {
      return None;
    }
    if addrbits != 32 {
      return None;
    }
    var bt, it, s := Reorganise(m, i);
    r := Choose32(m, bt, it, s, rfield);
  }

  method Reorganise(m: MemOp, i: Option<Reg>) returns (bt: int, it: int, s: int)
    requires i == UsedIndex(m)
    ensures Form(bt, it, s) == Reorganised(m)
  {
    bt, it, s := Num(m.base), Num(i), m.scale;
    if s == 1 && bt != it && bt != -1 && it != -1 && (HintIs(m, m.base, NotBase) || HintIs(m, i, MakeBase)) {
      bt, it := it, bt;
    }
    if bt == -1 && s == 1 && !HintIs(m, i, NotBase) {
      bt, it := it, -1;
    }
    if m.flags.mib {
      if it == -1 && HintIs(m, m.base, NotBase) {
        it, bt, s := bt, -1, 1;
      }
      if m.hint == Summed && bt == -1 {
        bt, s := it, s - 1;
      }
    } else {
      if ((s == 2 && it != ESP && (!m.flags.timesTwo || m.hint == Summed)) || s == 3 || s == 5 || s == 9) && bt == -1 {
        bt, s := it, s - 1;
      }
      if it == -1 && bt % 8 != ESP && m.flags.timesTwo && HintIs(m, m.base, NotBase) {
        it, bt, s := bt, -1, 1;
      }
    }
    if s == 1 && it == ESP {
      it, bt := bt, it;
    }
  }

  method Choose32(m: MemOp, bt: int, it: int, scale: int, rfield: nat) returns (r: Option<Ea>)
    requires bt >= -1 && it >= -1
    ensures r == Emit32(m, Form(bt, it, scale), rfield)
  {
    var s, o := scale, Signed32(m.offset);
    if it == ESP || (s != 1 && s != 2 && s != 4 && s != 8 && it != -1) {
      return None;
    }
    var mod, rm: nat;
    if bt == -1 {
      rm, mod := 5, 0;
    } else {
      rm := bt % 8;
      if rm != EBP && o == 0 && !m.relocated && !m.forward && !m.flags.byteOffs && !m.flags.wordOffs {
        mod := 0;
      } else if !m.flags.wordOffs && (m.flags.byteOffs || (-128 <= o <= 127 && !m.relocated && !m.forward)) {
        mod := 1;
      } else {
        mod := 2;
      }
    }
    var bytes: nat := if bt == -1 || mod == 2 then 4 else mod;
    if it == -1 && bt % 8 != ESP && !m.flags.sib {
      return Some(Ea(Modrm(mod, rfield, rm), None, bytes, Bit3(it), Bit3(bt)));
    }
    var index: nat;
    if it == -1 {
      index, s := 4, 1;
    } else {
      index := it % 8;
    }
    var sc := ScaleBits(s);
    if sc.None? {
      return None;
    }
    return Some(Ea(Modrm(mod, rfield, 4), Some(Sib(sc.value, index, rm)), bytes, Bit3(it), Bit3(bt)));
  }

  method Process16(m: MemOp, index: Option<Reg>, rfield: nat) returns (r: Option<Ea>)
    requires index == UsedIndex(m)
    ensures r == Emit16(m, rfield)
  {
    hide Signed16, Modrm;
    var b, i, o := m.base, index, Signed16(m.offset);
    if !Reg16(b) || !Reg16(i) {
      return None;
    }
    if m.dispSize == 32 || m.dispSize == 64 {
      return None;
    }
    if m.scale != 1 && i.Some? {
      return None;
    }
    if b.None? && i.Some? {
      b, i := i, b;
    }
    if (b == Some(SI) || b == Some(DI)) && i.Some? {
      b, i := i, b;
    }
    if b == i {
      return None;
    }
    if i.Some? && b.Some? && (i == Some(BP) || i == Some(BX) || b == Some(SI) || b == Some(DI)) {
      return None;
    }
    if b.None? {
      return None;
    }
    var rm := Rm16(b, i);
    if rm.None? {
      return None;
    }
    var mod: nat;
    if o == 0 && !m.relocated && !m.forward && rm.value != 6 && !m.flags.byteOffs && !m.flags.wordOffs {
      mod := 0;
    } else if !m.flags.wordOffs && (m.flags.byteOffs || (-128 <= o <= 127 && !m.relocated && !m.forward)) {
      mod := 1;
    } else {
      mod := 2;
    }
    return Some(Ea(Modrm(mod, rfield, rm.value), None, mod, false, false));
  }

  // The data pointer moves past the SIB byte at once and past the displacement at the end.
  method DoEa(data: seq<byte>, start: nat, modrm: byte, asize: nat, segsize: nat, rexX: bool, rexB: bool)
    returns (d: Decoded)
    ensures d == DecodeEa(data, start, modrm, asize, segsize, rexX, rexB)
  {
    hide Signed8, Signed32, Word, Dword;
    var pos, mod, rm := start, modrm / 64, modrm % 8;
    var sib: byte := 0;
    if mod != 3 && asize != 16 && rm == 4 {
      sib := At(data, pos);
      pos := pos + 1;
    }
    if mod == 3 {
      return Direct(rm + if rexB then 8 else 0, pos);
    }
    var size, base, index, scale, offset := 0, None, None, 0, 0;
    if asize == 16 {
      scale, base, index := 1, Base16(rm), Index16(rm);
      if rm == 6 && mod == 0 {
        base := None;
        if segsize != 16 {
          size := 16;
        }
        mod := 2;
      }
      if mod == 1 {
        offset, pos := Signed8(At(data, pos)), pos + 1;
      } else if mod == 2 {
        offset, pos := Word(data, pos), pos + 2;
      }
    } else {
      base := Gpr(rm + if rexB then 8 else 0);
      if rm == 5 && mod == 0 {
        size, base, mod := 32, None, 2;
      }
      if rm == 4 {
        var sc, ix, bs := sib / 64, sib / 8 % 8, sib % 8;
        scale := if sc == 0 then 1 else if sc == 1 then 2 else if sc == 2 then 4 else 8;
        index := if ix == 4 && !rexX then None else Gpr(ix + if rexX then 8 else 0);
        if bs == 5 && mod == 0 {
          base, mod := None, 2;
        } else {
          base := Gpr(bs + if rexB then 8 else 0);
        }
        if segsize == 16 {
          size := 32;
        }
      }
      if mod == 1 {
        offset, pos := Signed8(At(data, pos)), pos + 1;
      } else if mod == 2 {
        offset, pos := Signed32(Dword(data, pos)), pos + 4;
      }
    }
    return Memory(DecodedMem(base, index, scale, offset, size), pos);
  }

  // The common address size of all memory operands, None for the reported impossible combination.
  method AddAsp(prefix: Asize, bits: nat, mems: seq<MemOp>) returns (addrSize: Option<nat>)
    requires bits == 16 || bits == 32
    ensures addrSize == AddressSize(prefix, bits, mems)
  {
    var valid := PrefixSizes(prefix, bits);
    for j := 0 to |mems|
      invariant valid == AllSizes(PrefixSizes(prefix, bits), mems[..j])
    {
      assert mems[..j + 1][..j] == mems[..j];
      var m := mems[j];
      if PureOffset(m) {
        if m.dispSize > 8 {
          valid := Sizes(valid.s16 && m.dispSize / 16 % 2 == 1, valid.s32 && m.dispSize / 32 % 2 == 1);
        }
      } else {
        valid := Restrict(valid, m.base);
        valid := Restrict(valid, UsedIndex(m));
      }
    }
    assert mems[..|mems|] == mems;
    if (if bits == 16 then valid.s16 else valid.s32) {
      addrSize := Some(bits);
    } else if (if bits == 16 then valid.s32 else valid.s16) {
      addrSize := Some(48 - bits);
    } else {
      addrSize := None;
    }
  }
}
