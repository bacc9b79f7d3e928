// calcsize, gencode and matches as loops over the raw bytecodes.

module TemplateCode {
  import opened Common
  import opened X86
  import opened EaSpec
  import opened EaCode
  import opened TemplateSpec
  import opened TemplateLength
  import opened TemplateScan
  import opened TemplateRead

  // ---- The items behind the cursor ----

  ghost predicate Walking(codes: seq<byte>, done: seq<Item>, k: nat, opex: nat) {
    && Items(codes, 0, 0).Some? && Items(codes, k, opex).Some?
    && Items(codes, 0, 0).value == done + Items(codes, k, opex).value
  }

  lemma WalkStart(codes: seq<byte>)
    requires Items(codes, 0, 0).Some?
    ensures Walking(codes, [], 0, 0)
  {
    assert [] + Items(codes, 0, 0).value == Items(codes, 0, 0).value;
  }

  lemma WalkOn(codes: seq<byte>, done: seq<Item>, k: nat, opex: nat)
    requires Walking(codes, done, k, opex) && k < |codes| && codes[k] != 0
    ensures NextItem(codes, k, opex).Take? || NextItem(codes, k, opex).Extend?
    ensures
      match NextItem(codes, k, opex)
      case Extend(x, j) => Walking(codes, done, j, x)
      case Take(it, j) => Walking(codes, done + [it], j, 0)
      case _ => true
  {
    hide NextItem;
    NotDone(codes, k, opex);
    match NextItem(codes, k, opex) {
      case Take(it, j) =>
        assert done + ([it] + Items(codes, j, 0).value) == (done + [it]) + Items(codes, j, 0).value;
      case _ =>
    }
  }

  lemma NotDone(codes: seq<byte>, k: nat, opex: nat)
    requires k < |codes| && codes[k] != 0
    ensures NextItem(codes, k, opex) != Done
  {
  }

  lemma WalkEnd(codes: seq<byte>, done: seq<Item>, k: nat, opex: nat)
    requires Walking(codes, done, k, opex) && (k >= |codes| || codes[k] == 0)
    ensures Items(codes, 0, 0).value == done
  {
    assert Items(codes, k, opex).value == [];
  }

  // ---- calcsize ----

  // One turn of the switch, in two halves.
  method SizeOne(codes: seq<byte>, start: nat, opex: nat, ins: Insn, s: Sizing) returns (r: Option<Sizing>, k: nat)
    requires start < |codes| && codes[start] != 0 && NextItem(codes, start, opex).Take?
    ensures r == AddItem(Some(s), NextItem(codes, start, opex).item, ins) && k == NextItem(codes, start, opex).k
  {
    hide NextItem, AddItem;
    if codes[start] < 64 {
      r, k := SizeLow(codes, start, opex, ins, s);
    } else if codes[start] < 160 {
      r, k := SizeMiddle(codes, start, opex, ins, s);
    } else {
      r, k := SizeHigh(codes, start, opex, ins, s);
    }
  }

  method SizeLow(codes: seq<byte>, start: nat, opex: nat, ins: Insn, s: Sizing) returns (r: Option<Sizing>, k: nat)
    requires start < |codes| && 0 < codes[start] < 64 && NextItem(codes, start, opex).Take?
    ensures r == AddItem(Some(s), NextItem(codes, start, opex).item, ins) && k == NextItem(codes, start, opex).k
  {
    hide OperandEa, OrRex, RegRex, EaRex, Slice, OpAt, BytesBySize, RegNum;
    OrNothing(s.rex);
    var c: nat, length, rex := codes[start], s.length, s.rex;
    var op1 := c % 4 + opex % 2 * 4;
    k := start + 1;
    if c <= 4 {
      k, length := k + c, length + c;
    } else if c <= 11 {
      if !OpAt(ins, op1).RegOp? {
        return None, k + 1;
      }
      rex := OrRex(rex, RegRex(OpAt(ins, op1).reg, true, false, false, true));
      k, length := k + 1, length + 1;
    } else if c <= 23 {
      length := length + 1;
    } else if c <= 27 {
      length := length + 2;
    } else if c <= 31 {
      length := length + BytesBySize(OpAt(ins, op1));
    } else if c <= 35 {
      length := length + 4;
    } else if c <= 39 {
      length := length + ins.addrSize / 8;
    } else if c <= 43 {
      length := length + 1;
    } else if c <= 47 {
      length := length + 8;
    } else if c <= 51 {
      length := length + 2;
    } else if c <= 55 {
      length := length + BytesBySize(OpAt(ins, op1));
    } else if c <= 59 {
      length := length + 4;
    }
    return Some(s.(length := length, rex := rex)), k;
  }

  method SizeMiddle(codes: seq<byte>, start: nat, opex: nat, ins: Insn, s: Sizing) returns (r: Option<Sizing>, k: nat)
    requires start < |codes| && 64 <= codes[start] < 160 && NextItem(codes, start, opex).Take?
    ensures r == AddItem(Some(s), NextItem(codes, start, opex).item, ins) && k == NextItem(codes, start, opex).k
  {
    hide OperandEa, OrRex, RegRex, EaRex, Slice, OpAt, BytesBySize, RegNum;
    OrNothing(s.rex);
    var c: nat, length, rex := codes[start], s.length, s.rex;
    var op1, op2 := c % 4 + opex % 2 * 4, c / 8 % 4 + opex / 2 % 2 * 4;
    k := start + 1;
    if c <= 95 {
      if !OpAt(ins, op1).RegOp? {
        return None, k;
      }
      var ea := ProcessOperand(OpAt(ins, op2), ins.addrSize, RegNum(OpAt(ins, op1)));
      if ea.None? {
        return None, k;
      }
      rex := OrRex(rex, OrRex(RegRex(OpAt(ins, op1).reg, false, false, true, true), EaRex(OpAt(ins, op2), ea.value)));
      length := length + EaSize(ea.value);
    } else if c == 121 {
      var t := At(codes, k);
      var op := op2 / 4 * 4 + t / 8 % 4;
      if !OpAt(ins, op).RegOp? {
        return None, k + 1;
      }
      rex := OrRex(rex, RegRex(OpAt(ins, op).reg, false, false, true, true));
      k, length := k + 1, length + 1;
    } else if c <= 159 {
      var ea := ProcessOperand(OpAt(ins, op2), ins.addrSize, c % 8);
      if ea.None? {
        return None, k;
      }
      rex := OrRex(rex, EaRex(OpAt(ins, op2), ea.value));
      length := length + EaSize(ea.value);
    }
    return Some(s.(length := length, rex := rex)), k;
  }

  method SizeHigh(codes: seq<byte>, start: nat, opex: nat, ins: Insn, s: Sizing) returns (r: Option<Sizing>, k: nat)
    requires start < |codes| && codes[start] >= 160 && NextItem(codes, start, opex).Take?
    ensures r == AddItem(Some(s), NextItem(codes, start, opex).item, ins) && k == NextItem(codes, start, opex).k
  {
    hide OperandEa, OrRex, RegRex, EaRex, Slice, OpAt, BytesBySize, RegNum;
    OrNothing(s.rex);
    var c: nat, length, rex, noW, prefixes := codes[start], s.length, s.rex, s.noW, s.prefixes;
    k := start + 1;
    if c <= 175 {
      length := length + 4;
    } else if 188 <= c <= 191 {
      length := length + 1;
    } else if c == 200 {
      if !ins.prefixes.asize.A16? {
        length := length + 1;
      }
    } else if c == 208 {
      if prefixes.osize.NoOsize? {
        prefixes := prefixes.(osize := O16);
      }
    } else if c == 209 {
      if prefixes.osize.NoOsize? {
        prefixes := prefixes.(osize := O32);
      }
    } else if c == 211 {
      noW := true;
    } else if c == 212 {
      rex := OrRex(rex, NO_REX.(w := true));
    } else if c == 213 {
      rex := OrRex(rex, NO_REX.(nh := true));
    } else if c == 216 {
      k, length := k + 1, length + 1;
    } else if c == 218 || c == 219 {
      length := length + 1;
    } else if c == 220 {
      rex := OrRex(rex, NO_REX.(l := true));
    } else if c == 222 {
      if prefixes.rep.NoRep? {
        prefixes := prefixes.(rep := RepF3);
      }
    } else if c == 223 {
      if prefixes.rep.NoRep? {
        prefixes := prefixes.(rep := RepF2);
      }
    } else if c == 225 {
      prefixes := prefixes.(wait := true);
    } else if c == 241 || c == 246 || c == 247 || c == 251 {
      length := length + 1;
    }
    return Some(Sizing(length, rex, noW, prefixes)), k;
  }

  lemma OrNothing(r: Rex)
    ensures OrRex(r, NO_REX) == r
  {
  }

  // process_ea on any operand.
  method ProcessOperand(o: Operand, addrSize: nat, rfield: nat) returns (r: Option<Ea>)
    ensures r == OperandEa(o, addrSize, rfield)
  {
    if o.RegOp? {
      if !EaReg(o.reg.cls) {
        return None;
      }
      return Some(Ea(Modrm(3, rfield, o.reg.num), None, 0, false, Bit3(o.reg.num)));
    }
    r := ProcessEa(AsMem(o), addrSize, rfield);
  }

  lemma {:induction false} NoSizeAfter(items: seq<Item>, more: seq<Item>, ins: Insn)
    requires SizeItems(items, ins).None?
    ensures SizeItems(items + more, ins).None?
    decreases |more|
  {
    hide AddItem;
    if more == [] {
      assert items + more == items;
    } else {
      var init := more[..|more| - 1];
      NoSizeAfter(items, init, ins);
      assert (items + more)[..|items + more| - 1] == items + init;
      StillNone(more[|more| - 1], ins);
    }
  }

  lemma StillNone(it: Item, ins: Insn)
    ensures AddItem(None, it, ins) == None
  {
  }

  lemma SizeSnocStep(items: seq<Item>, it: Item, ins: Insn)
    ensures SizeItems(items + [it], ins) == AddItem(SizeItems(items, ins), it, ins)
  {
    assert (items + [it])[..|items|] == items;
  }

  // The length and the completed instruction, None for -1.
  method Calcsize(codes: seq<byte>, ins: Insn, x64: bool) returns (r: Option<(nat, Insn, Rex)>)
    requires Items(codes, 0, 0).Some?
    ensures r == InsnSize(Items(codes, 0, 0).value, ins, x64)
  {
    hide NextItem, SizeItems, AddItem, Walking, PrefixBytes, ItemSize;
    var s := Sizing(0, NO_REX.(w := ins.prefixes.osize.O64?), false, ins.prefixes);
    var k, opex := 0, 0;
    ghost var done := [];
    WalkStart(codes);
    SizeNothing(ins);
    while k < |codes| && codes[k] != 0
      invariant Walking(codes, done, k, opex)
      invariant SizeItems(done, ins) == Some(s)
      decreases |codes| - k
    {
      WalkOn(codes, done, k, opex);
      ghost var next := NextItem(codes, k, opex);
      NextMoves(codes, k, opex);
      if 5 <= codes[k] <= 7 {
        opex, k := codes[k], k + 1;
      } else {
        var t, j := SizeOne(codes, k, opex, ins, s);
        SizeSnocStep(done, next.item, ins);
        done := done + [next.item];
        opex, k := 0, j;
        if t.None? {
          WalkRest(codes, done, k, opex);
          NoSizeAfter(done, Items(codes, k, opex).value, ins);
          return None;
        }
        s := t.value;
      }
    }
    WalkEnd(codes, done, k, opex);
    var lock := LockBytes(s, x64);
    if lock.None? {
      return None;
    }
    var prefix := EmitPrefix(s.prefixes);
    r := Some((s.length + lock.value + |prefix|, ins.(prefixes := s.prefixes), FinalRex(s)));
  }

  lemma WalkRest(codes: seq<byte>, done: seq<Item>, k: nat, opex: nat)
    requires Walking(codes, done, k, opex)
    ensures Items(codes, k, opex).Some? && Items(codes, 0, 0).value == done + Items(codes, k, opex).value
  {
  }

  lemma SizeNothing(ins: Insn)
    ensures SizeItems([], ins) == Some(Sizing(0, NO_REX.(w := ins.prefixes.osize.O64?), false, ins.prefixes))
  {
  }

  lemma NextMoves(codes: seq<byte>, k: nat, opex: nat)
    requires k < |codes| && codes[k] != 0
    ensures 5 <= codes[k] <= 7 ==> NextItem(codes, k, opex) == Extend(codes[k], k + 1)
    ensures !(5 <= codes[k] <= 7) ==> !NextItem(codes, k, opex).Extend?
    ensures NextItem(codes, k, opex).Take? ==> NextItem(codes, k, opex).k > k
  {
  }

  // The prefix slots in turn.
  method EmitPrefix(p: Prefixes) returns (out: seq<byte>)
    ensures out == PrefixBytes(p)
  {
    out := [];
    for j := 0 to 6
      invariant out == SlotBytes(p, j)
    {
      var c := SlotByte(p, j);
      if c != 0 {
        out := out + [c];
      }
    }
  }

  // ---- gencode ----

  // out_imm
  function OutImm(o: Operand, size: nat): seq<byte> {
    Little(OffsetOf(o), size)
  }

  // out_reladdr, with `base` the address of the next instruction.
  function OutRel(o: Operand, size: nat, base: int): seq<byte> {
    Little(OffsetOf(o) - base, size)
  }

  method EmitEa(o: Operand, addrSize: nat, rfield: nat) returns (b: seq<byte>)
    ensures
      var ea := OperandEa(o, addrSize, rfield);
      b == if ea.None? then [] else EaBytes(ea.value, OffsetOf(o))
  {
    hide Little;
    var ea := ProcessOperand(o, addrSize, rfield);
    if ea.None? {
      return [];
    }
    b := [ea.value.modrm];
    if ea.value.sib.Some? {
      b := b + [ea.value.sib.value];
    }
    if ea.value.bytes != 0 {
      b := b + OutImm(o, ea.value.bytes);
    }
  }

  // One turn of the switch; `base` is recomputed from the running offset at every output.
  method GenOne(codes: seq<byte>, start: nat, opex: nat, ins: Insn, base: int, rexR: bool)
    returns (b: seq<byte>, k: nat, lock: bool)
    requires start < |codes| && codes[start] != 0 && NextItem(codes, start, opex).Take?
    ensures
      var next := NextItem(codes, start, opex);
      && k == next.k && b == ItemBytes(next.item, ins, base, rexR) && lock == (rexR && !next.item.LockRex?)
  {
    hide NextItem, ItemBytes;
    if codes[start] < 64 {
      b, k := GenLow(codes, start, opex, ins, base, rexR);
      lock := rexR;
    } else {
      b, k, lock := GenHigh(codes, start, opex, ins, base, rexR);
    }
  }

  method GenLow(codes: seq<byte>, start: nat, opex: nat, ins: Insn, base: int, ghost rexR: bool)
    returns (b: seq<byte>, k: nat)
    requires start < |codes| && 0 < codes[start] < 64 && NextItem(codes, start, opex).Take?
    ensures
      var next := NextItem(codes, start, opex);
      k == next.k && b == ItemBytes(next.item, ins, base, rexR) && !next.item.LockRex?
  {
    hide OperandEa, EaBytes, Slice, OpAt, BytesBySize, RegNum, OffsetOf, Little, XorNibble;
    var c: nat := codes[start];
    var op1 := c % 4 + opex % 2 * 4;
    k, b := start + 1, [];
    if c <= 4 {
      b, k := Slice(codes, k, c), k + c;
    } else if c <= 11 {
      b, k := [(At(codes, k) + RegNum(OpAt(ins, op1)) % 8) % 256], k + 1;
    } else if c <= 23 {
      b := OutImm(OpAt(ins, op1), 1);
    } else if c <= 27 {
      b := OutImm(OpAt(ins, op1), 2);
    } else if c <= 31 {
      b := OutImm(OpAt(ins, op1), BytesBySize(OpAt(ins, op1)));
    } else if c <= 35 {
      b := OutImm(OpAt(ins, op1), 4);
    } else if c <= 39 {
      b := OutImm(OpAt(ins, op1), ins.addrSize / 8);
    } else if c <= 43 {
      b := OutRel(OpAt(ins, op1), 1, base);
    } else if c <= 47 {
      b := OutImm(OpAt(ins, op1), 8);
    } else if c <= 51 {
      b := OutRel(OpAt(ins, op1), 2, base);
    } else if c <= 55 {
      b := OutRel(OpAt(ins, op1), BytesBySize(OpAt(ins, op1)), base);
    } else if c <= 59 {
      b := OutRel(OpAt(ins, op1), 4, base);
    }
  }

  method GenHigh(codes: seq<byte>, start: nat, opex: nat, ins: Insn, base: int, rexR: bool)
    returns (b: seq<byte>, k: nat, lock: bool)
    requires start < |codes| && codes[start] >= 64 && NextItem(codes, start, opex).Take?
    ensures
      var next := NextItem(codes, start, opex);
      && k == next.k && b == ItemBytes(next.item, ins, base, rexR) && lock == (rexR && !next.item.LockRex?)
  {
    hide OperandEa, EaBytes, Slice, OpAt, BytesBySize, RegNum, OffsetOf, Little, XorNibble;
    var c: nat := codes[start];
    var op1, op2 := c % 4 + opex % 2 * 4, c / 8 % 4 + opex / 2 % 2 * 4;
    k, b, lock := start + 1, [], rexR;
    if c <= 95 {
      b := EmitEa(OpAt(ins, op2), ins.addrSize, RegNum(OpAt(ins, op1)));
    } else if c == 121 {
      var t := At(codes, k);
      var op := op2 / 4 * 4 + t / 8 % 4;
      b, k := [t / 64 * 64 + RegNum(OpAt(ins, op)) % 8 * 8 + t % 8], k + 1;
    } else if c <= 159 {
      b := EmitEa(OpAt(ins, op2), ins.addrSize, c % 8);
    } else if c <= 175 {
      b := OutImm(OpAt(ins, op1), 4);
    } else if 188 <= c <= 191 {
      b := OutImm(OpAt(ins, op1), 1);
    } else if c == 200 {
      if !ins.prefixes.asize.A16? {
        b := [0x67];
      }
    } else if c == 216 {
      b, k := [XorNibble(At(codes, k), ins.cond % 16)], k + 1;
    } else if c == 218 || c == 219 {
      b := [c - 218 + 0xF2];
    } else if c == 220 {
      if lock {
        b := [0xF0];
      }
      lock := false;
    } else if c == 241 {
      b := [0x66];
    } else if c == 246 || c == 247 {
      b := [c - 246 + 0x66];
    } else if c == 251 {
      b := [5];
    }
  }

  // The state of the output routine: where the next byte goes, and how much of the instruction is out.
  class OutData {
    var offset: int
    var insoffs: nat
    var inslen: nat
    var code: seq<byte>

    constructor (start: int, inslen: nat)
      ensures offset == start && insoffs == 0 && this.inslen == inslen && code == []
    {
      offset, insoffs, this.inslen, code := start, 0, inslen, [];
    }

    method Out(b: seq<byte>)
      modifies this`offset, this`insoffs, this`code
      ensures code == old(code) + b && offset == old(offset) + |b| && insoffs == old(insoffs) + |b|
    {
      offset, insoffs, code := offset + |b|, insoffs + |b|, code + b;
    }

    function RelBase(): int
      reads this
    {
      offset + (inslen - insoffs)
    }
  }

  lemma CodeAppend(items: seq<Item>, it: Item, ins: Insn, base: int, rexR: bool)
    ensures CodeBytes(items + [it], ins, base, rexR)
         == CodeBytes(items, ins, base, rexR) + ItemBytes(it, ins, base, LockLeft(items, rexR))
    decreases |items|
  {
    hide ItemBytes;
    if items == [] {
      assert [] + [it] == [it];
      assert [it][1..] == [];
      assert ItemBytes(it, ins, base, rexR) + [] == [] + ItemBytes(it, ins, base, rexR);
    } else {
      var rest := items[1..];
      assert (items + [it])[1..] == rest + [it];
      CodeAppend(rest, it, ins, base, rexR && !items[0].LockRex?);
    }
  }

  lemma LockAppend(items: seq<Item>, it: Item, rexR: bool)
    ensures LockLeft(items + [it], rexR) == (LockLeft(items, rexR) && !it.LockRex?)
    decreases |items|
  {
    if items == [] {
      assert ([] + [it])[1..] == [];
    } else {
      assert (items + [it])[1..] == items[1..] + [it];
      LockAppend(items[1..], it, rexR && !items[0].LockRex?);
    }
  }

  method Gencode(data: OutData, codes: seq<byte>, ins: Insn, rex: Rex)
    requires Items(codes, 0, 0).Some? && data.insoffs == 0 && data.code == []
    modifies data`offset, data`insoffs, data`code
    ensures data.code == InsnBytes(Items(codes, 0, 0).value, ins, old(data.offset) + data.inslen, rex)
    ensures data.insoffs == |data.code| && data.offset == old(data.offset) + |data.code|
  {
    hide NextItem, Walking, PrefixBytes, ItemBytes;
    ghost var base := data.offset + data.inslen;
    var prefix := EmitPrefix(ins.prefixes);
    data.Out(prefix);
    var k, opex, lock := 0, 0, rex.r;
    ghost var done := [];
    WalkStart(codes);
    assert data.code == prefix + CodeBytes([], ins, base, rex.r);
    while k < |codes| && codes[k] != 0
      invariant Walking(codes, done, k, opex)
      invariant data.code == prefix + CodeBytes(done, ins, base, rex.r)
      invariant data.insoffs == |data.code| && data.offset == old(data.offset) + |data.code|
      invariant lock == LockLeft(done, rex.r)
      decreases |codes| - k
    {
      WalkOn(codes, done, k, opex);
      ghost var next := NextItem(codes, k, opex);
      NextMoves(codes, k, opex);
      if 5 <= codes[k] <= 7 {
        opex, k := codes[k], k + 1;
      } else {
        assert data.RelBase() == base;
        var b, j, l := GenOne(codes, k, opex, ins, data.RelBase(), lock);
        CodeAppend(done, next.item, ins, base, rex.r);
        LockAppend(done, next.item, rex.r);
        done := done + [next.item];
        opex, k, lock := 0, j, l;
        data.Out(b);
      }
    }
    WalkEnd(codes, done, k, opex);
  }

  // assemble: the length pre-pass, then the output, which comes out at exactly that length.
  method Assemble(codes: seq<byte>, ins: Insn, x64: bool, start: int) returns (code: Option<seq<byte>>)
    requires Items(codes, 0, 0).Some?
    ensures
      var items := Items(codes, 0, 0).value;
      var sized := InsnSize(items, ins, x64);
      if sized.None? then code.None?
      else
        var (length, done, rex) := sized.value;
        code == Some(InsnBytes(items, done, start + length, rex)) && |code.value| == length
  {
    hide Items, InsnSize, InsnBytes;
    var r := Calcsize(codes, ins, x64);
    if r.None? {
      return None;
    }
    var (length, sized, rex) := r.value;
    var data := new OutData(start, length);
    Gencode(data, codes, sized, rex);
    LengthsAgree(Items(codes, 0, 0).value, ins, x64, start + length);
    assert data.insoffs == data.inslen;
    return Some(data.code);
  }

  // ---- matches ----

  method ReadOne(codes: seq<byte>, start: nat, opex: nat, data: seq<byte>, pos: nat, f: Scanned, s: State)
    returns (r: Read, k: nat, t: State)
    requires start < |codes| && codes[start] != 0 && NextItem(codes, start, opex).Take?
    ensures r == ReadItem(NextItem(codes, start, opex).item, data, pos, f, s) && k == NextItem(codes, start, opex).k
    ensures r.Match? ==> t == After(NextItem(codes, start, opex).item, s)
  {
    hide NextItem, ReadItem, After;
    t := s;
    if codes[start] < 64 {
      r, k := ReadLow(codes, start, opex, data, pos, f, s);
    } else if codes[start] < 172 {
      r, k := ReadModrm(codes, start, opex, data, pos, f, s);
    } else if codes[start] < 200 || codes[start] == 216 {
      r, k := ReadMore(codes, start, opex, data, pos, f, s);
    } else if codes[start] < 218 {
      r, k, t := ReadSizes(codes, start, opex, data, pos, f, s);
    } else {
      r, k, t := ReadPrefixed(codes, start, opex, data, pos, f, s);
    }
  }

  method ReadLow(codes: seq<byte>, start: nat, opex: nat, data: seq<byte>, pos: nat, f: Scanned, s: State)
    returns (r: Read, k: nat)
    requires start < |codes| && 0 < codes[start] < 64 && NextItem(codes, start, opex).Take?
    ensures r == ReadItem(NextItem(codes, start, opex).item, data, pos, f, s) && k == NextItem(codes, start, opex).k
    ensures After(NextItem(codes, start, opex).item, s) == s
  {
    hide Slice, LittleValue, SignedValue;
    var c: nat := codes[start];
    var op1 := c % 4 + opex % 2 * 4;
    k := start + 1;
    if c <= 4 {
      r := if Slice(data, pos, c) == Slice(codes, k, c) then Match([], pos + c) else Mismatch;
      k := k + c;
    } else if c <= 11 {
      var t: nat, d: nat := At(codes, k), At(data, pos);
      k := k + 1;
      r := if d < t || d > t + 7 then Mismatch else Match([RegWrite(op1, d - t)], pos + 1);
    } else if c <= 23 {
      r := Match([OffsetWrite(op1, LittleValue(data, pos, 1))], pos + 1);
    } else if c <= 27 {
      r := Match([OffsetWrite(op1, LittleValue(data, pos, 2))], pos + 2);
    } else if c <= 31 {
      var n := if s.osize == 32 then 4 else 2;
      r := Match([OffsetWrite(op1, LittleValue(data, pos, n))], pos + n);
    } else if c <= 35 {
      r := Match([OffsetWrite(op1, LittleValue(data, pos, 4))], pos + 4);
    } else if c <= 39 {
      var n := if f.sizes.asize == 16 then 2 else 4;
      r := Match([OffsetWrite(op1, LittleValue(data, pos, n))], pos + n);
    } else if c <= 43 {
      r := Match([OffsetWrite(op1, SignedValue(data, pos, 1))], pos + 1);
    } else if c <= 47 {
      r := Match([OffsetWrite(op1, LittleValue(data, pos, 8))], pos + 8);
    } else if c <= 51 {
      r := Match([OffsetWrite(op1, SignedValue(data, pos, 2))], pos + 2);
    } else if c <= 55 {
      var n := if s.osize == 32 then 4 else 2;
      r := Match([OffsetWrite(op1, SignedValue(data, pos, n))], pos + n);
    } else {
      r := Match([OffsetWrite(op1, SignedValue(data, pos, 4))], pos + 4);
    }
  }

  method ReadModrm(codes: seq<byte>, start: nat, opex: nat, data: seq<byte>, pos: nat, f: Scanned, s: State)
    returns (r: Read, k: nat)
    requires start < |codes| && 64 <= codes[start] < 172 && NextItem(codes, start, opex).Take?
    ensures r == ReadItem(NextItem(codes, start, opex).item, data, pos, f, s) && k == NextItem(codes, start, opex).k
    ensures After(NextItem(codes, start, opex).item, s) == s
  {
    hide DecodeEa;
    var c: nat := codes[start];
    var op1, op2 := c % 4 + opex % 2 * 4, c / 8 % 4 + opex / 2 % 2 * 4;
    k := start + 1;
    var d := At(data, pos);
    if c <= 95 {
      var e := DoEa(data, pos + 1, d, f.sizes.asize, 32, false, false);
      r := Match([EaWrite(op2, e), RegWrite(op1, d / 8 % 8 + if s.rexR then 8 else 0)], e.next);
    } else if c == 121 {
      var t := At(codes, k);
      k := k + 1;
      if d / 64 != t / 64 || d % 8 != t % 8 {
        r := Mismatch;
      } else {
        r := Match([RegWrite(op2 / 4 * 4 + t / 8 % 4, d / 8 % 8 + if s.rexR then 8 else 0)], pos + 1);
      }
    } else if d / 8 % 8 != c % 8 {
      r := Mismatch;
    } else {
      var e := DoEa(data, pos + 1, d, f.sizes.asize, 32, false, false);
      r := Match([EaWrite(op2, e)], e.next);
    }
  }

  method ReadMore(codes: seq<byte>, start: nat, opex: nat, data: seq<byte>, pos: nat, f: Scanned, s: State)
    returns (r: Read, k: nat)
    requires start < |codes| && (172 <= codes[start] < 200 || codes[start] == 216) && NextItem(codes, start, opex).Take?
    ensures r == ReadItem(NextItem(codes, start, opex).item, data, pos, f, s) && k == NextItem(codes, start, opex).k
    ensures After(NextItem(codes, start, opex).item, s) == s
  {
    hide SignedValue;
    var c: nat := codes[start];
    var op1 := c % 4 + opex % 2 * 4;
    k, r := start + 1, Match([], pos);
    if c <= 175 {
      r := Match([OffsetWrite(op1, SignedValue(data, pos, 4))], pos + 4);
    } else if 188 <= c <= 191 {
      r := Match([OffsetWrite(op1, SignedValue(data, pos, 1))], pos + 1);
    } else if 192 <= c <= 195 {
      r := Mismatch;
    } else if c == 216 {
      var t: nat, d: nat := At(codes, k), At(data, pos);
      k := k + 1;
      r := if d < t || d > t + 15 then Mismatch else Match([CondWrite(d - t)], pos + 1);
    }
  }

  // The bytecodes that look at the prefixes only.
  method ReadSizes(codes: seq<byte>, start: nat, opex: nat, data: seq<byte>, pos: nat, f: Scanned, s: State)
    returns (r: Read, k: nat, t: State)
    requires start < |codes| && 200 <= codes[start] < 218 && codes[start] != 216 && NextItem(codes, start, opex).Take?
    ensures r == ReadItem(NextItem(codes, start, opex).item, data, pos, f, s) && k == NextItem(codes, start, opex).k
    ensures r.Match? ==> t == After(NextItem(codes, start, opex).item, s)
  {
    var c: nat := codes[start];
    var asp, ok := f.sizes.asize == 16, true;
    k, t := start + 1, s;
    if c == 200 {
      ok, t := asp, s.(aUsed := true);
    } else if c == 201 || c == 202 {
      ok, t := !asp, s.(aUsed := true);
    } else if c == 208 {
      ok, t := s.osize == 16, s.(oUsed := true);
    } else if c == 209 || c == 210 {
      ok, t := s.osize == 32, s.(oUsed := true);
    } else if c == 211 {
      t := s.(osize := 64, oUsed := true);
    } else if c == 212 {
      ok, t := s.osize == 64, s.(oUsed := true);
    } else if c == 214 {
      ok := f.rep != 0xF3;
    } else if c == 217 {
      ok := f.rep == 0;
    }
    r := if ok then Match([], pos) else Mismatch;
  }

  method ReadPrefixed(codes: seq<byte>, start: nat, opex: nat, data: seq<byte>, pos: nat, f: Scanned, s: State)
    returns (r: Read, k: nat, t: State)
    requires start < |codes| && 218 <= codes[start] && NextItem(codes, start, opex).Take?
    ensures r == ReadItem(NextItem(codes, start, opex).item, data, pos, f, s) && k == NextItem(codes, start, opex).k
    ensures r.Match? ==> t == After(NextItem(codes, start, opex).item, s)
  {
    var c: nat := codes[start];
    var osp, asp, ok := f.sizes.osize == 16, f.sizes.asize == 16, true;
    k, t := start + 1, s;
    if c == 218 || c == 219 {
      ok, t := f.rep as int == c - 218 + 0xF2, s.(rep := 0);
    } else if c == 220 {
      if s.lock {
        t := s.(rexR := true, lock := false);
      }
    } else if c == 225 {
      ok, t := f.wait, s.(wait := false);
    } else if c == 240 {
      ok := !osp && f.rep == 0;
    } else if c == 241 {
      ok, t := osp && f.rep == 0, s.(oUsed := true);
    } else if c == 244 {
      ok := !osp;
    } else if c == 245 {
      ok := !asp;
    } else if c == 246 {
      ok, t := osp, s.(oUsed := true);
    } else if c == 247 {
      ok, t := asp, s.(aUsed := true);
    } else if c == 251 {
      ok := false;
    }
    r := if ok then Match([], pos) else Mismatch;
  }

  lemma {:induction false} ReadAppend(items: seq<Item>, more: seq<Item>, data: seq<byte>, pos: nat, f: Scanned,
                                      s: State)
    ensures
      var r := ReadItems(items, data, pos, f, s);
      ReadItems(items + more, data, pos, f, s) ==
        if r.None? then None
        else
          var t := ReadItems(more, data, r.value.1, f, r.value.2);
          if t.None? then None else Some((r.value.0 + t.value.0, t.value.1, t.value.2))
    decreases |items|
  {
    hide ReadItem, After;
    if items == [] {
      assert [] + more == more;
      var t := ReadItems(more, data, pos, f, s);
      if t.Some? {
        assert [] + t.value.0 == t.value.0;
      }
    } else {
      assert (items + more)[1..] == items[1..] + more;
      match ReadItem(items[0], data, pos, f, s) {
        case Mismatch =>
        case Match(w, next) =>
          ReadAppend(items[1..], more, data, next, f, After(items[0], s));
          var a := ReadItems(items[1..], data, next, f, After(items[0], s));
          if a.Some? {
            var t := ReadItems(more, data, a.value.1, f, a.value.2);
            if t.Some? {
              assert [w] + (a.value.0 + t.value.0) == ([w] + a.value.0) + t.value.0;
            }
          }
      }
    }
  }

  // The stores of every bytecode, the length and the prefixes to show; None for a template that does not match.
  method Matches(codes: seq<byte>, operands: nat, data: seq<byte>, start: nat, f: Scanned)
    returns (r: Option<(seq<seq<Write>>, nat, Left)>)
    requires Items(codes, 0, 0).Some?
    ensures r == ReadInsn(Items(codes, 0, 0).value, operands, data, start, f)
  {
    hide NextItem, Walking, ReadItem, ReadItems, After;
    var k, opex, pos, writes, s := 0, 0, start, [], StartState(f);
    ghost var done := [];
    WalkStart(codes);
    ReadNothing(data, start, f, s);
    while k < |codes| && codes[k] != 0
      invariant Walking(codes, done, k, opex)
      invariant ReadItems(done, data, start, f, StartState(f)) == Some((writes, pos, s))
      decreases |codes| - k
    {
      WalkOn(codes, done, k, opex);
      ghost var next := NextItem(codes, k, opex);
      NextMoves(codes, k, opex);
      if 5 <= codes[k] <= 7 {
        opex, k := codes[k], k + 1;
      } else {
        var w, j, t := ReadOne(codes, k, opex, data, pos, f, s);
        ReadAppend(done, [next.item], data, start, f, StartState(f));
        ReadSingle(next.item, data, pos, f, s);
        done := done + [next.item];
        opex, k := 0, j;
        if w.Mismatch? {
          WalkRest(codes, done, k, opex);
          ReadAppend(done, Items(codes, k, opex).value, data, start, f, StartState(f));
          return None;
        }
        pos, writes, s := w.next, writes + [w.writes], t;
      }
    }
    WalkEnd(codes, done, k, opex);
    if f.escape {
      return None;
    }
    var showSize := !s.oUsed && s.osize == 16;
    var showAddress := !s.aUsed && operands == 0 && f.sizes.asize == 16;
    r := Some((writes, pos, Left(s.wait, s.rep, s.lock, showSize, showAddress)));
  }

  lemma ReadNothing(data: seq<byte>, pos: nat, f: Scanned, s: State)
    ensures ReadItems([], data, pos, f, s) == Some(([], pos, s))
  {
  }

  lemma ReadSingle(it: Item, data: seq<byte>, pos: nat, f: Scanned, s: State)
    ensures
      var r := ReadItem(it, data, pos, f, s);
      ReadItems([it], data, pos, f, s) == if r.Mismatch? then None else Some(([r.writes], r.next, After(it, s)))
  {
    hide ReadItem, After;
    assert [it][1..] == [];
    var r := ReadItem(it, data, pos, f, s);
    if r.Match? {
      ReadNothing(data, r.next, f, After(it, s));
      assert [r.writes] + [] == [r.writes];
    }
  }

  // The prefix loop of the disassembler.
  method ScanPrefixes(data: seq<byte>) returns (found: Scanned, pos: nat)
    ensures Scan(data, 0, NOTHING_YET) == (found, pos)
  {
    hide ScanByte, EscapeLength;
    found, pos := NOTHING_YET, 0;
    while pos < |data| && ScanByte(data[pos], found).Some?
      invariant pos <= |data| && Scan(data, 0, NOTHING_YET) == Scan(data, pos, found) && !found.escape
      decreases |data| - pos
    {
      ScanKeeps(data[pos], found);
      found, pos := ScanByte(data[pos], found).value, pos + 1;
    }
    if pos < |data| {
      var n := EscapeLength(data, pos);
      found, pos := found.(escape := n > 0), pos + n;
    }
  }

  lemma ScanKeeps(b: byte, s: Scanned)
    requires ScanByte(b, s).Some?
    ensures ScanByte(b, s).value.escape == s.escape
  {
  }
}
