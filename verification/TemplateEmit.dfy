// What every bytecode puts out for its operands.

module TemplateEmit {
  import opened Common
  import opened Positional
  import opened X86
  import opened EaSpec
  import opened TemplateSpec
  import opened TemplateBack

  // ---- Bytes of a number ----

  // The last n digits of x in base 256, lowest first.
  predicate LowBytes(b: seq<byte>, x: int, n: nat) {
    |b| == n && forall i :: 0 <= i < n ==> b[i] as int == x / Power(256, i) % 256
  }

  lemma {:induction false} LittleDigits(x: int, n: nat)
    ensures LowBytes(Little(x, n), x, n)
    decreases n
  {
    hide Power;
    if n > 0 {
      PowerZero();
      LittleDigits(x / 256, n - 1);
      forall i | 0 <= i < n ensures Little(x, n)[i] as int == x / Power(256, i) % 256 {
        if i > 0 {
          PowerNext(i);
          DivideTwice(x, Power(256, i - 1));
        }
      }
    }
  }

  lemma PowerZero()
    ensures Power(256, 0) == 1
  {
  }

  lemma PowerNext(i: nat)
    requires i > 0
    ensures Power(256, i) == 256 * Power(256, i - 1)
  {
  }

  lemma DivideTwice(x: int, p: nat)
    requires p > 0
    ensures x / 256 / p == x / (256 * p)
  {
    var y := x / 256;
    var q, r := y / p, y % p;
    assert y == p * q + r;
    Combine(p, q, r, x % 256);
    Quotient(x, 256 * p, q, 256 * r + x % 256);
  }

  lemma Combine(p: int, q: int, r: int, s: int)
    ensures 256 * (p * q + r) + s == 256 * p * q + (256 * r + s)
  {
  }

  lemma Quotient(x: int, d: nat, q: int, r: nat)
    requires d > 0 && x == d * q + r && r < d
    ensures x / d == q
  {
    var k := x / d;
    assert x == d * k + x % d;
    if k > q {
      Times(d, k - q);
      Difference(d, k, q);
    } else if k < q {
      Times(d, q - k);
      Difference(d, k, q);
    }
  }

  lemma Times(d: nat, n: nat)
    requires n > 0
    ensures d * n >= d
  {
  }

  lemma Difference(d: int, k: int, q: int)
    ensures d * (k - q) == d * k - d * q && d * (q - k) == d * q - d * k
  {
  }

  // ---- One bytecode ----

  // The template is measured and puts out these bytes.
  ghost predicate Emits(codes: seq<byte>, ins: Insn, base: int, out: seq<byte>) {
    && Items(codes, 0, 0).Some?
    && (forall it :: it in Items(codes, 0, 0).value ==> ItemSize(it, ins).Some?)
    && CodeBytes(Items(codes, 0, 0).value, ins, base, false) == out
  }

  lemma EmitsOne(codes: seq<byte>, it: Item, ins: Insn, base: int)
    requires codes != [] && NextItem(codes, 0, 0) == Take(it, |codes|) && ItemSize(it, ins).Some?
    ensures Emits(codes, ins, base, ItemBytes(it, ins, base, false))
  {
    hide NextItem, ItemBytes, ItemSize;
    assert Items(codes, |codes|, 0) == Some([]);
    assert [it] + [] == [it];
    assert Items(codes, 0, 0) == Some([it]);
    OneCode(it, ins, base);
  }

  lemma OneCode(it: Item, ins: Insn, base: int)
    ensures CodeBytes([it], ins, base, false) == ItemBytes(it, ins, base, false)
  {
    hide ItemBytes;
    assert [it][1..] == [];
  }

  // Behind an extension byte the same bytecode takes the operand four further on.
  lemma EmitsExtended(codes: seq<byte>, it: Item, ins: Insn, base: int)
    requires |codes| == 2 && codes[0] == 5 && NextItem(codes, 1, 5) == Take(it, 2) && ItemSize(it, ins).Some?
    ensures Emits(codes, ins, base, ItemBytes(it, ins, base, false))
  {
    assert NextItem(codes, 0, 0) == Extend(5, 1);
    hide NextItem, ItemBytes, ItemSize;
    assert Items(codes, 2, 0) == Some([]);
    assert [it] + [] == [it];
    assert Items(codes, 1, 5) == Some([it]);
    OneCode(it, ins, base);
  }

  // Operand op is a number: an immediate, or the offset of a memory operand.
  predicate IsNumber(ins: Insn, op: nat, x: int) {
    op < |ins.oprs| &&
    match ins.oprs[op]
    case ImmOp(y, _, _, _) => x == y
    case MemRef(m) => x == m.offset
    case RegOp(_) => false
  }

  // Bytes put out by ib (twice), iw, id, iq, id,s and ib,s.
  predicate ImmediateCode(c: nat, op: nat, n: nat) {
    op < 4 &&
    ( || ((c == 16 + op || c == 20 + op || c == 188 + op) && n == 1)
      || (c == 24 + op && n == 2)
      || ((c == 32 + op || c == 172 + op) && n == 4)
      || (c == 44 + op && n == 8))
  }

  lemma OpOf(c: nat, k: nat, op: nat)
    requires c == 4 * k + op && op < 4
    ensures c % 4 == op
  {
  }

  lemma ImmediateNext(codes: seq<byte>, k: nat, opex: nat, op: nat, x: nat, n: nat)
    requires k < |codes| && ImmediateCode(codes[k], op, n) && x == op + opex % 2 * 4
    ensures NextItem(codes, k, opex) == Take(if codes[k] >= 172 then ImmSext(x, n) else Imm(x, n), k + 1)
  {
    OpOf(codes[k], (codes[k] - op) / 4, op);
  }

  lemma ImmediateBytes(it: Item, op: nat, n: nat, ins: Insn, base: int, x: int)
    requires (it == Imm(op, n) || it == ImmSext(op, n)) && IsNumber(ins, op, x)
    ensures ItemSize(it, ins).Some? && ItemBytes(it, ins, base, false) == Little(x, n)
  {
    hide Little;
  }

  lemma ImmediateOut(c: byte, op: nat, n: nat, ins: Insn, base: int, x: int) returns (out: seq<byte>)
    requires ImmediateCode(c, op, n) && IsNumber(ins, op, x)
    ensures Emits([c], ins, base, out) && LowBytes(out, x, n)
  {
    var it := if c >= 172 then ImmSext(op, n) else Imm(op, n);
    ImmediateNext([c], 0, 0, op, op, n);
    ImmediateBytes(it, op, n, ins, base, x);
    LittleDigits(x, n);
    hide NextItem, ItemBytes, ItemSize, Little, LowBytes, ImmediateCode, IsNumber, Emits;
    out := Little(x, n);
    EmitsOne([c], it, ins, base);
  }

  lemma ExtendedOut(c: byte, op: nat, n: nat, ins: Insn, base: int, x: int) returns (out: seq<byte>)
    requires ImmediateCode(c, op, n) && IsNumber(ins, op + 4, x)
    ensures Emits([5, c], ins, base, out) && LowBytes(out, x, n)
  {
    var it := if c >= 172 then ImmSext(op + 4, n) else Imm(op + 4, n);
    hide NextItem, ItemBytes, ItemSize, Little, LowBytes, ImmediateCode, IsNumber, Emits, Power;
    ImmediateNext([5, c], 1, 5, op, op + 4, n);
    ImmediateBytes(it, op + 4, n, ins, base, x);
    LittleDigits(x, n);
    out := Little(x, n);
    EmitsExtended([5, c], it, ins, base);
  }

  // iwd: two bytes for an operand typed 16 bits, else four.
  lemma SizedOut(op: nat, ins: Insn, base: int, x: int, b16: bool, b32: bool, b64: bool) returns (out: seq<byte>)
    requires op < 4 && op < |ins.oprs| && ins.oprs[op] == ImmOp(x, b16, b32, b64)
    ensures Emits([28 + op], ins, base, out) && LowBytes(out, x, if b16 then 2 else 4)
  {
    hide Little;
    out := Little(x, if b16 then 2 else 4);
    LittleDigits(x, if b16 then 2 else 4);
    OpOf(28 + op, 7, op);
    assert NextItem([28 + op], 0, 0) == Take(ImmBySize(op), 1);
    hide NextItem;
    EmitsOne([28 + op], ImmBySize(op), ins, base);
  }

  // A memory offset has the address size.
  lemma OffsetOut(op: nat, ins: Insn, base: int, x: int) returns (out: seq<byte>)
    requires op < 4 && IsNumber(ins, op, x)
    ensures Emits([36 + op], ins, base, out) && LowBytes(out, x, ins.addrSize / 8)
  {
    hide Little;
    out := Little(x, ins.addrSize / 8);
    LittleDigits(x, ins.addrSize / 8);
    OpOf(36 + op, 9, op);
    assert NextItem([36 + op], 0, 0) == Take(MemOffset(op), 1);
    hide NextItem;
    EmitsOne([36 + op], MemOffset(op), ins, base);
  }

  // rel8, rel16 and rel32: the distance from the end of the instruction.
  lemma RelativeOut(c: byte, op: nat, n: nat, ins: Insn, base: int, x: int) returns (out: seq<byte>)
    requires op < 4 && ((c == 40 + op && n == 1) || (c == 48 + op && n == 2) || (c == 56 + op && n == 4))
    requires IsNumber(ins, op, x)
    ensures Emits([c], ins, base, out) && LowBytes(out, x - base, n)
  {
    hide Little;
    out := Little(x - base, n);
    LittleDigits(x - base, n);
    OpOf(c, (c - op) / 4, op);
    assert NextItem([c], 0, 0) == Take(Rel(op, n), 1);
    hide NextItem;
    EmitsOne([c], Rel(op, n), ins, base);
  }

  lemma SizedRelativeOut(op: nat, ins: Insn, base: int, x: int, b16: bool, b32: bool, b64: bool)
    returns (out: seq<byte>)
    requires op < 4 && op < |ins.oprs| && ins.oprs[op] == ImmOp(x, b16, b32, b64)
    ensures Emits([52 + op], ins, base, out) && LowBytes(out, x - base, if b16 then 2 else 4)
  {
    hide Little;
    out := Little(x - base, if b16 then 2 else 4);
    LittleDigits(x - base, if b16 then 2 else 4);
    OpOf(52 + op, 13, op);
    assert NextItem([52 + op], 0, 0) == Take(RelBySize(op), 1);
    hide NextItem;
    EmitsOne([52 + op], RelBySize(op), ins, base);
  }

  predicate IsRegister(ins: Insn, op: nat, n: nat) {
    op < |ins.oprs| && ins.oprs[op].RegOp? && ins.oprs[op].reg.num == n
  }

  // +r, and the register field of 0171.
  lemma RegisterOut(op: nat, t: byte, ins: Insn, base: int, n: nat)
    requires op < 4 && IsRegister(ins, op, n)
    ensures Emits([8 + op, t], ins, base, [(t + n % 8) % 256])
  {
    OpOf(8 + op, 2, op);
    assert NextItem([8 + op, t], 0, 0) == Take(PlusReg(op, t), 2);
    hide NextItem;
    EmitsOne([8 + op, t], PlusReg(op, t), ins, base);
  }

  lemma FieldOut(op: nat, high: nat, low: nat, ins: Insn, base: int, n: nat)
    requires op < 4 && high < 4 && low < 8 && IsRegister(ins, op, n)
    ensures Emits([121, 64 * high + 8 * op + low], ins, base, [64 * high + 8 * (n % 8) + low])
  {
    var t: byte := 64 * high + 8 * op + low;
    FieldParts(high, op, low);
    assert NextItem([121, t], 0, 0) == Take(RegField(op, t), 2);
    hide NextItem;
    EmitsOne([121, t], RegField(op, t), ins, base);
  }

  lemma FieldParts(high: nat, op: nat, low: nat)
    requires op < 4 && high < 4 && low < 8
    ensures
      var t := 64 * high + 8 * op + low;
      t / 64 == high && t % 8 == low && t / 8 % 4 == op
  {
  }

  // /r with a register behind it: register r in the register field, m in the other.
  lemma RegistersOut(r: nat, m: nat, ins: Insn, base: int, a: nat, b: nat)
    requires r < 4 && m < 4 && IsRegister(ins, r, a) && IsRegister(ins, m, b) && EaReg(ins.oprs[m].reg.cls)
    ensures Emits([64 + 8 * m + r], ins, base, [0xC0 + 8 * (a % 8) + b % 8])
  {
    hide EaReg, NextItem, EaOf;
    RegisterCode(r, m);
    EmitsOne([64 + 8 * m + r], RegMem(r, m), ins, base);
  }

  lemma RegisterCode(r: nat, m: nat)
    requires r < 4 && m < 4
    ensures NextItem([64 + 8 * m + r], 0, 0) == Take(RegMem(r, m), 1)
  {
    FieldsOf(64 + 8 * m + r, 8, m, r);
  }

  lemma FieldsOf(c: nat, k: nat, m: nat, r: nat)
    requires c == 8 * k + 8 * m + r && r < 8 && m < 4 && k % 4 == 0
    ensures c % 8 == r && c / 8 % 4 == m && (r < 4 ==> c % 4 == r && c / 4 % 2 == 0)
  {
    assert c / 8 == k + m;
    if r < 4 {
      assert c / 4 == 2 * (k + m);
    }
  }

  // /r and /digit with a memory operand: the bytes of its address, register or digit in the register field.
  lemma AddressOut(r: nat, m: nat, ins: Insn, base: int, a: nat, mem: MemOp, ea: Ea)
    requires r < 4 && m < 4 && IsRegister(ins, r, a) && m < |ins.oprs| && ins.oprs[m] == MemRef(mem)
    requires EaOf(mem, ins.addrSize, a) == Some(ea)
    ensures Emits([64 + 8 * m + r], ins, base, EaBytes(ea, mem.offset))
  {
    hide EaOf, EaBytes, EaSize, NextItem;
    RegisterCode(r, m);
    EmitsOne([64 + 8 * m + r], RegMem(r, m), ins, base);
  }

  lemma DigitCode(d: nat, m: nat)
    requires d < 8 && m < 4
    ensures NextItem([128 + 8 * m + d], 0, 0) == Take(Digit(d, m), 1)
  {
    FieldsOf(128 + 8 * m + d, 16, m, d);
  }

  lemma DigitOut(d: nat, m: nat, ins: Insn, base: int, b: nat)
    requires d < 8 && m < 4 && IsRegister(ins, m, b) && EaReg(ins.oprs[m].reg.cls)
    ensures Emits([128 + 8 * m + d], ins, base, [0xC0 + 8 * d + b % 8])
  {
    hide EaReg, NextItem, EaOf;
    DigitCode(d, m);
    EmitsOne([128 + 8 * m + d], Digit(d, m), ins, base);
  }

  lemma DigitAddressOut(d: nat, m: nat, ins: Insn, base: int, mem: MemOp, ea: Ea)
    requires d < 8 && m < 4 && m < |ins.oprs| && ins.oprs[m] == MemRef(mem) && EaOf(mem, ins.addrSize, d) == Some(ea)
    ensures Emits([128 + 8 * m + d], ins, base, EaBytes(ea, mem.offset))
  {
    hide EaOf, EaBytes, EaSize, NextItem;
    DigitCode(d, m);
    EmitsOne([128 + 8 * m + d], Digit(d, m), ins, base);
  }

  // A condition on top of a base whose low bits are free.
  lemma ConditionOut(t: byte, ins: Insn, base: int)
    requires t % 16 == 0 && ins.cond < 16
    ensures Emits([216, t], ins, base, [t + ins.cond])
  {
    ConditionBytes(t, ins, base);
    ConditionNext(t);
    hide NextItem, ItemBytes;
    EmitsOne([216, t], Cond(t), ins, base);
  }

  lemma ConditionBytes(t: byte, ins: Insn, base: int)
    requires t % 16 == 0 && ins.cond < 16
    ensures t + ins.cond < 256 && ItemBytes(Cond(t), ins, base, false) == [t + ins.cond]
  {
    hide XorNibble;
    NibbleTop(t, ins.cond);
  }

  lemma ConditionNext(t: byte)
    ensures NextItem([216, t], 0, 0) == Take(Cond(t), 2)
  {
    hide Slice;
  }

  lemma NibbleTop(t: byte, c: nat)
    requires t % 16 == 0 && c < 16
    ensures XorNibble(t, c) == t + c
  {
    hide XorBit;
    var k := t / 16;
    assert t == 16 * k && t / 8 == 2 * k && t / 4 == 4 * k && t / 2 == 8 * k;
    EvenBit(k, c / 8);
    EvenBit(2 * k, c / 4);
    EvenBit(4 * k, c / 2);
    EvenBit(8 * k, c);
    BitsOf(c);
  }

  lemma EvenBit(k: nat, b: nat)
    ensures XorBit(2 * k, b) == b % 2
  {
  }

  lemma BitsOf(c: nat)
    requires c < 16
    ensures c / 8 % 2 * 8 + c / 4 % 2 * 4 + c / 2 % 2 * 2 + c % 2 == c
  {
  }

  lemma LiteralOut(b: seq<byte>, ins: Insn, base: int)
    requires 1 <= |b| <= 4
    ensures Emits([|b|] + b, ins, base, b)
  {
    var codes := [|b|] + b;
    assert Slice(codes, 1, |b|) == b by {
      forall i | 0 <= i < |b| ensures Slice(codes, 1, |b|)[i] == b[i] {
        assert codes[1 + i] == b[i];
      }
    }
    EmitsOne(codes, Literal(b), ins, base);
  }

  // f2i, f3i, the prefixes of SSE instructions, and a16 where the address size prefix is not there already.
  lemma PrefixOut(ins: Insn, base: int)
    ensures Emits([218], ins, base, [0xF2]) && Emits([219], ins, base, [0xF3])
    ensures Emits([241], ins, base, [0x66]) && Emits([246], ins, base, [0x66]) && Emits([247], ins, base, [0x67])
    ensures Emits([200], ins, base, if ins.prefixes.asize.A16? then [] else [0x67])
  {
    FixedOut(218, ins, base);
    FixedOut(219, ins, base);
    FixedOut(241, ins, base);
    FixedOut(246, ins, base);
    FixedOut(247, ins, base);
    assert NextItem([200], 0, 0) == Take(AddrA16, 1);
    hide NextItem;
    EmitsOne([200], AddrA16, ins, base);
  }

  lemma FixedOut(c: byte, ins: Insn, base: int)
    requires c == 218 || c == 219 || c == 241 || c == 246 || c == 247
    ensures Emits([c], ins, base, [FixedByte(c)])
  {
    assert NextItem([c], 0, 0) == Take(Fixed(c), 1);
    hide NextItem;
    EmitsOne([c], Fixed(c), ins, base);
  }

  // All prefixes at once, in the order of the slots.
  lemma PrefixOrder(seg: byte)
    requires seg != 0
    ensures PrefixBytes(Prefixes(true, RepF3, true, Some(seg), O16, A16)) == [0x9B, 0xF3, 0xF0, seg, 0x66, 0x67]
    ensures PrefixBytes(Prefixes(false, RepF2, false, None, OSP, ASP)) == [0xF2, 0x66, 0x67]
    ensures PrefixBytes(Prefixes(false, NoRep, false, None, O32, A32)) == []
  {
    hide PrefixBytes;
    AllSlots(seg);
    SomeSlots();
    NoSlots();
  }

  lemma AllSlots(seg: byte)
    requires seg != 0
    ensures PrefixBytes(Prefixes(true, RepF3, true, Some(seg), O16, A16)) == [0x9B, 0xF3, 0xF0, seg, 0x66, 0x67]
  {
    hide PrefixBytes;
    SlotsOf(Prefixes(true, RepF3, true, Some(seg), O16, A16));
  }

  lemma SomeSlots()
    ensures PrefixBytes(Prefixes(false, RepF2, false, None, OSP, ASP)) == [0xF2, 0x66, 0x67]
  {
    hide PrefixBytes;
    SlotsOf(Prefixes(false, RepF2, false, None, OSP, ASP));
  }

  lemma NoSlots()
    ensures PrefixBytes(Prefixes(false, NoRep, false, None, O32, A32)) == []
  {
    hide PrefixBytes;
    SlotsOf(Prefixes(false, NoRep, false, None, O32, A32));
  }

  lemma SlotsOf(p: Prefixes)
    ensures
      PrefixBytes(p) ==
      Slot(p, 0) + Slot(p, 1) + Slot(p, 2) + Slot(p, 3) + Slot(p, 4) + Slot(p, 5)
  {
    hide SlotByte;
    assert SlotBytes(p, 1) == Slot(p, 0);
    assert SlotBytes(p, 3) == Slot(p, 0) + Slot(p, 1) + Slot(p, 2);
    assert SlotBytes(p, 5) == Slot(p, 0) + Slot(p, 1) + Slot(p, 2) + Slot(p, 3) + Slot(p, 4);
  }

  function Slot(p: Prefixes, j: nat): seq<byte> {
    if SlotByte(p, j) != 0 then [SlotByte(p, j)] else []
  }

  // The template of paddb as raw bytecode.
  lemma RawTemplate()
    ensures Items([241, 2, 0x0F, 0xFC, 72], 0, 0) == Some(PADDB)
  {
    var codes: seq<byte> := [241, 2, 0x0F, 0xFC, 72];
    RawFirst(codes);
    RawSecond(codes);
    RawThird(codes);
    NoItems(codes, 5);
    hide NextItem, Slice, Items;
    ItemsCons(codes, 4, RegMem(0, 1), 5);
    ItemsCons(codes, 1, Literal([0x0F, 0xFC]), 4);
    ItemsCons(codes, 0, Fixed(241), 1);
    assert [Fixed(241)] + ([Literal([0x0F, 0xFC])] + ([RegMem(0, 1)] + [])) == PADDB;
  }

  lemma NoItems(codes: seq<byte>, k: nat)
    requires k >= |codes|
    ensures Items(codes, k, 0) == Some([])
  {
  }

  lemma ItemsCons(codes: seq<byte>, k: nat, it: Item, j: nat)
    requires k < |codes| && NextItem(codes, k, 0) == Take(it, j) && j <= |codes| && k < j && Items(codes, j, 0).Some?
    ensures Items(codes, k, 0) == Some([it] + Items(codes, j, 0).value)
  {
    hide NextItem;
  }

  lemma RawFirst(codes: seq<byte>)
    requires |codes| > 0 && codes[0] == 241
    ensures NextItem(codes, 0, 0) == Take(Fixed(241), 1)
  {
    hide Slice;
  }

  lemma RawSecond(codes: seq<byte>)
    requires |codes| > 3 && codes[1] == 2 && codes[2] == 0x0F && codes[3] == 0xFC
    ensures NextItem(codes, 1, 0) == Take(Literal([0x0F, 0xFC]), 4)
  {
    assert Slice(codes, 2, 2) == [0x0F, 0xFC];
    hide Slice;
  }

  lemma RawThird(codes: seq<byte>)
    requires |codes| > 4 && codes[4] == 72
    ensures NextItem(codes, 4, 0) == Take(RegMem(0, 1), 5)
  {
    hide Slice;
    FieldsOf(72, 8, 1, 0);
  }

  // ---- What calcsize accepts ----

  // Registers that 32-bit code has: numbers below 8, and the byte registers that need no REX.
  predicate Old(r: Reg) {
    r.num < 8 && !r.cls.Gpr64? && (r.cls.Gpr8? ==> r.num < 4)
  }

  predicate OldOperand(o: Operand) {
    match o
    case RegOp(r) => Old(r)
    case MemRef(m) => (m.base.Some? ==> m.base.value.num < 8) && (m.index.Some? ==> m.index.value.num < 8)
    case ImmOp(_, _, _, _) => true
  }

  // No REX bit; high byte registers are marked, and do no harm.
  predicate NoRexNeeded(r: Rex) {
    !r.b && !r.x && !r.r && !r.w && !r.p && !r.nh
  }

  lemma OldRegisters(m: MemOp, addrSize: nat, rfield: nat, ea: Ea)
    requires EaOf(m, addrSize, rfield) == Some(ea) && OldOperand(MemRef(m))
    ensures !ea.rexX && !ea.rexB
  {
    hide ModFor, Modrm, Sib, Signed32, Signed16, Rm16, Order16;
    if Wide(m.base) || Wide(UsedIndex(m)) {
      ReorganisedInRange(m);
      LowForm(m);
    }
  }

  lemma LowForm(m: MemOp)
    requires OldOperand(MemRef(m))
    ensures Reorganised(m).b < 8 && Reorganised(m).i < 8
  {
  }

  lemma OldItem(it: Item, ins: Insn)
    requires ItemSize(it, ins).Some? && !it.ForceW? && !it.NoHigh?
    requires forall i :: 0 <= i < |ins.oprs| ==> OldOperand(ins.oprs[i])
    ensures NoRexNeeded(ItemRex(it, ins))
  {
    hide EaOf, EaSize;
    match it {
      case PlusReg(op, _) => OldAt(ins, op);
      case RegField(op, _) => OldAt(ins, op);
      case RegMem(r, m) =>
        OldAt(ins, r);
        OldAt(ins, m);
        OldEa(OpAt(ins, m), ins.addrSize, RegNum(OpAt(ins, r)));
      case Digit(d, m) =>
        OldAt(ins, m);
        OldEa(OpAt(ins, m), ins.addrSize, d);
      case _ =>
    }
  }

  lemma OldAt(ins: Insn, op: nat)
    requires forall i :: 0 <= i < |ins.oprs| ==> OldOperand(ins.oprs[i])
    ensures OldOperand(OpAt(ins, op))
  {
  }

  lemma OldEa(o: Operand, addrSize: nat, rfield: nat)
    requires OldOperand(o) && OperandEa(o, addrSize, rfield).Some?
    ensures NoRexNeeded(EaRex(o, OperandEa(o, addrSize, rfield).value))
  {
    hide EaOf;
    if !o.RegOp? {
      OldRegisters(AsMem(o), addrSize, rfield, OperandEa(o, addrSize, rfield).value);
    }
  }

  lemma {:induction false} OldItems(items: seq<Item>, ins: Insn)
    requires forall it :: it in items ==> ItemSize(it, ins).Some? && !it.ForceW? && !it.NoHigh?
    requires forall i :: 0 <= i < |ins.oprs| ==> OldOperand(ins.oprs[i])
    requires !ins.prefixes.osize.O64?
    ensures SizeItems(items, ins).Some? && NoRexNeeded(SizeItems(items, ins).value.rex)
  {
    hide ItemSize, ItemRex, OldOperand, ItemPrefixes;
    if items != [] {
      var init, last := items[..|items| - 1], items[|items| - 1];
      assert items == init + [last];
      OldItems(init, ins);
      OldItem(last, ins);
    }
  }

  // Every instruction whose bytecodes can be measured and that uses old registers only is accepted.
  lemma OldAccepted(items: seq<Item>, ins: Insn, x64: bool)
    requires forall it :: it in items ==> ItemSize(it, ins).Some? && !it.ForceW? && !it.NoHigh?
    requires forall i :: 0 <= i < |ins.oprs| ==> OldOperand(ins.oprs[i])
    requires !ins.prefixes.osize.O64?
    ensures InsnSize(items, ins, x64).Some?
  {
    hide ItemSize, SizeItems, PrefixBytes;
    OldItems(items, ins);
  }
}
