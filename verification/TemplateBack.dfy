// Assemble an instruction, then disassemble it.

module TemplateBack {
  import opened Common
  import opened X86
  import opened EaSpec
  import opened TemplateSpec
  import opened TemplateLength
  import opened TemplateScan
  import opened TemplateRead

  // ---- The items behind each other ----

  // Readable one after the other, each with the state that the ones before leave behind.
  predicate AllReadable(items: seq<Item>, ins: Insn, f: Scanned, s: State) {
    items == [] || (Readable(items[0], ins, f, s) && AllReadable(items[1..], ins, f, After(items[0], s)))
  }

  function Owns(items: seq<Item>, ins: Insn, base: int): seq<byte> {
    if items == [] then [] else Own(items[0], ins, base) + Owns(items[1..], ins, base)
  }

  function Finally(items: seq<Item>, s: State): State {
    if items == [] then s else Finally(items[1..], After(items[0], s))
  }

  lemma {:induction false} ItemsBack(items: seq<Item>, ins: Insn, base: int, f: Scanned, s: State, data: seq<byte>,
                                     pos: nat)
    requires forall it :: it in items ==> ItemSize(it, ins).Some? && Legal(it)
    requires forall it :: it in items ==> !ItemRex(it, ins).b && !ItemRex(it, ins).x
    requires OperandsOk(ins) && f.sizes.asize == ins.addrSize && AllReadable(items, ins, f, s)
    requires Holds(data, pos, Owns(items, ins, base))
    ensures
      var r := ReadItems(items, data, pos, f, s);
      && r.Some? && r.value.1 == pos + |Owns(items, ins, base)| && |r.value.0| == |items|
      && r.value.2 == Finally(items, s)
      && forall i :: 0 <= i < |items| ==> Agrees(items[i], r.value.0[i], ins, base)
    decreases |items|
  {
    hide ItemSize, Readable, ItemRex, Own, ReadItem, Agrees, Holds, OperandsOk, Legal, After;
    if items != [] {
      var rest := items[1..];
      var b := Own(items[0], ins, base);
      HoldsPart(data, pos, b, Owns(rest, ins, base));
      ItemBack(items[0], ins, base, f, s, data, pos);
      ItemsBack(rest, ins, base, f, After(items[0], s), data, pos + |b|);
    }
  }

  // Items whose output is all matched byte by byte: no prefix byte among it.
  predicate Plain(items: seq<Item>, ins: Insn, rexR: bool) {
    forall it :: it in items ==> !it.Fixed? && (it.AddrA16? ==> ins.prefixes.asize.A16?) && (it.LockRex? ==> !rexR)
  }

  lemma {:induction false} PlainBytes(items: seq<Item>, ins: Insn, base: int, rexR: bool)
    requires Plain(items, ins, rexR)
    ensures CodeBytes(items, ins, base, rexR) == Owns(items, ins, base)
  {
    if items != [] {
      assert items[0] in items;
      PlainItem(items[0], ins, base, rexR);
      PlainBytes(items[1..], ins, base, rexR && !items[0].LockRex?);
    }
  }

  lemma PlainItem(it: Item, ins: Insn, base: int, rexR: bool)
    requires !it.Fixed? && (it.AddrA16? ==> ins.prefixes.asize.A16?) && (it.LockRex? ==> !rexR)
    ensures ItemBytes(it, ins, base, rexR) == Own(it, ins, base)
  {
  }

  lemma {:induction false} CodeSplit(a: seq<Item>, b: seq<Item>, ins: Insn, base: int, rexR: bool)
    ensures CodeBytes(a + b, ins, base, rexR)
         == CodeBytes(a, ins, base, rexR) + CodeBytes(b, ins, base, LockLeft(a, rexR))
    decreases |a|
  {
    hide ItemBytes;
    if a == [] {
      assert [] + b == b;
    } else {
      assert (a + b)[1..] == a[1..] + b;
      CodeSplit(a[1..], b, ins, base, rexR && !a[0].LockRex?);
    }
  }

  lemma {:induction false} OwnsSplit(a: seq<Item>, b: seq<Item>, ins: Insn, base: int)
    requires forall it :: it in a ==> ReadsNothing(it)
    ensures Owns(a + b, ins, base) == Owns(b, ins, base)
    decreases |a|
  {
    if a == [] {
      assert [] + b == b;
    } else {
      assert a[0] in a;
      assert (a + b)[1..] == a[1..] + b;
      OwnsSplit(a[1..], b, ins, base);
    }
  }

  // No register extension but REX.R in the whole instruction, then none in any item.
  lemma {:induction false} ExtensionFree(items: seq<Item>, ins: Insn)
    requires SizeItems(items, ins).Some?
    requires !SizeItems(items, ins).value.rex.b && !SizeItems(items, ins).value.rex.x
    ensures forall it :: it in items ==> !ItemRex(it, ins).b && !ItemRex(it, ins).x
  {
    hide ItemRex, ItemSize;
    if items != [] {
      var init := items[..|items| - 1];
      ExtensionFree(init, ins);
      assert items == init + [items[|items| - 1]];
    }
  }

  lemma RexSame(it: Item, ins: Insn, p: Prefixes)
    ensures ItemRex(it, ins.(prefixes := p)) == ItemRex(it, ins)
  {
    hide OperandEa, RegRex, EaRex, OrRex;
    assert forall op: nat :: OpAt(ins.(prefixes := p), op) == OpAt(ins, op);
  }

  // ---- The whole instruction ----

  // An instruction in memory: its prefixes, then the output of the first `lead` items, which is all prefix
  // bytes, and the rest.  f is what all those prefix bytes say.
  ghost predicate InPlace(items: seq<Item>, lead: nat, ins: Insn, base: int, rex: Rex, f: Scanned, data: seq<byte>) {
    && lead <= |items|
    && (forall it :: it in items[..lead] ==> ReadsNothing(it))
    && Plain(items[lead..], ins, LockLeft(items[..lead], rex.r))
    && (ins.prefixes.seg.Some? ==> SegmentByte(ins.prefixes.seg.value))
    && ScansTo(CodeBytes(items[..lead], ins, base, rex.r), Announced(ins.prefixes), f)
    && data == InsnBytes(items, ins, base, rex)
  }

  // The rest begins with the opcode.
  ghost predicate Laid(items: seq<Item>, lead: nat, ins: Insn, base: int, rex: Rex, f: Scanned, data: seq<byte>) {
    InPlace(items, lead, ins, base, rex, f, data) && StopsAt(data, OpcodeAt(items, lead, ins, base, rex))
  }

  function OpcodeAt(items: seq<Item>, lead: nat, ins: Insn, base: int, rex: Rex): nat
    requires lead <= |items|
  {
    |PrefixBytes(ins.prefixes)| + |CodeBytes(items[..lead], ins, base, rex.r)|
  }

  // The three parts of the code, with nothing left of the template's structure.
  lemma BytesLaid(items: seq<Item>, lead: nat, ins: Insn, base: int, rex: Rex, f: Scanned, data: seq<byte>)
    requires InPlace(items, lead, ins, base, rex, f, data)
    ensures
      data == PrefixBytes(ins.prefixes) + CodeBytes(items[..lead], ins, base, rex.r) + Owns(items, ins, base)
  {
    hide PrefixBytes, CodeBytes, Plain, ScansTo, Announced, Owns, LockLeft, ReadsNothing;
    var a, b := items[..lead], items[lead..];
    assert items == a + b;
    CodeSplit(a, b, ins, base, rex.r);
    PlainBytes(b, ins, base, LockLeft(a, rex.r));
    OwnsSplit(a, b, ins, base);
    Regroup(PrefixBytes(ins.prefixes), CodeBytes(a, ins, base, rex.r), Owns(items, ins, base));
  }

  lemma Regroup(p: seq<byte>, x: seq<byte>, y: seq<byte>)
    ensures p + (x + y) == p + x + y
  {
  }

  // The scan ends in front of the rest if and only if the rest begins with the opcode.
  lemma ScanLaid(items: seq<Item>, lead: nat, ins: Insn, base: int, rex: Rex, f: Scanned, data: seq<byte>)
    requires InPlace(items, lead, ins, base, rex, f, data)
    ensures !f.escape
    ensures Scan(data, 0, NOTHING_YET) == (f, OpcodeAt(items, lead, ins, base, rex))
       <==> StopsAt(data, OpcodeAt(items, lead, ins, base, rex))
    ensures Holds(data, OpcodeAt(items, lead, ins, base, rex), Owns(items, ins, base))
    ensures |data| == OpcodeAt(items, lead, ins, base, rex) + |Owns(items, ins, base)|
  {
    BytesLaid(items, lead, ins, base, rex, f, data);
    hide PrefixBytes, CodeBytes, Owns, InsnBytes, ReadsNothing, Plain, LockLeft;
    ScanParts(PrefixBytes(ins.prefixes), CodeBytes(items[..lead], ins, base, rex.r), Owns(items, ins, base),
              ins.prefixes, f);
  }

  lemma ScanParts(p: seq<byte>, x: seq<byte>, y: seq<byte>, prefixes: Prefixes, f: Scanned)
    requires p == PrefixBytes(prefixes) && (prefixes.seg.Some? ==> SegmentByte(prefixes.seg.value))
    requires ScansTo(x, Announced(prefixes), f)
    ensures !f.escape && Holds(p + x + y, |p + x|, y)
    ensures Scan(p + x + y, 0, NOTHING_YET) == (f, |p + x|) <==> StopsAt(p + x + y, |p + x|)
  {
    hide PrefixBytes, ScansTo, Scan, StopsAt;
    var data := p + x + y;
    WholeHolds(p + x, y);
    HoldsPart(data, 0, p, x);
    ScansPrefixes(prefixes);
    ScanAll(p, data, 0, NOTHING_YET, Announced(prefixes));
    ScanAll(x, data, |p|, Announced(prefixes), f);
    ScanStops(data, |p| + |x|, f);
    NoEscape(x, Announced(prefixes), f);
  }

  lemma WholeHolds(p: seq<byte>, c: seq<byte>)
    ensures Holds(p + c, 0, p) && Holds(p + c, |p|, c)
  {
    assert (p + c)[0..|p|] == p && (p + c)[|p|..|p| + |c|] == c;
  }

  lemma {:induction false} NoEscape(x: seq<byte>, s: Scanned, t: Scanned)
    requires ScansTo(x, s, t)
    ensures t.escape == s.escape
    decreases |x|
  {
    if x != [] {
      NoEscape(x[1..], ScanByte(x[0], s).value, t);
    }
  }

  // What disassembling is to give: f and everything that the items came from.
  ghost predicate Undone(items: seq<Item>, lead: nat, ins: Insn, base: int, rex: Rex, f: Scanned, operands: nat,
                         data: seq<byte>)
    requires lead <= |items|
  {
    var pos := OpcodeAt(items, lead, ins, base, rex);
    var r := ReadInsn(items, operands, data, pos, f);
    && Scan(data, 0, NOTHING_YET) == (f, pos)
    && r.Some? && r.value.1 == |data| && |r.value.0| == |items|
    && r.value.2 == Leftover(operands, f, Finally(items, StartState(f)))
    && forall i :: 0 <= i < |items| ==> Agrees(items[i], r.value.0[i], ins, base)
  }

  lemma CodeRoundTrip(items: seq<Item>, lead: nat, ins: Insn, base: int, rex: Rex, f: Scanned, operands: nat,
                      data: seq<byte>)
    requires forall it :: it in items ==> ItemSize(it, ins).Some? && Legal(it)
    requires forall it :: it in items ==> !ItemRex(it, ins).b && !ItemRex(it, ins).x
    requires OperandsOk(ins) && Laid(items, lead, ins, base, rex, f, data)
    requires f.sizes.asize == ins.addrSize && AllReadable(items, ins, f, StartState(f))
    ensures Undone(items, lead, ins, base, rex, f, operands, data)
  {
    ScanLaid(items, lead, ins, base, rex, f, data);
    hide SizeItems, ItemSize, ItemRex, InsnBytes, ReadItems, AllReadable, OperandsOk, Agrees, OpcodeAt,
      Leftover, Finally, Legal, Owns, Laid, ReadsNothing, Plain, ScansTo, StopsAt, PrefixBytes, Scan;
    ItemsBack(items, ins, base, f, StartState(f), data, OpcodeAt(items, lead, ins, base, rex));
  }

  // Main result: for an instruction that calcsize accepts, the prefix scan finds its prefixes, those that the
  // template demands included; matching the same template consumes exactly the rest; and every register,
  // immediate, relative target and address comes back.
  lemma InsnRoundTrip(items: seq<Item>, lead: nat, ins: Insn, x64: bool, start: int, f: Scanned, operands: nat,
                      data: seq<byte>)
    requires InsnSize(items, ins, x64).Some? && OperandsOk(ins) && forall it :: it in items ==> Legal(it)
    requires
      var (length, sized, rex) := InsnSize(items, ins, x64).value;
      && Laid(items, lead, sized, start + length, rex, f, data)
      && f.sizes.asize == ins.addrSize && AllReadable(items, sized, f, StartState(f))
    ensures
      var (length, sized, rex) := InsnSize(items, ins, x64).value;
      |data| == length && Undone(items, lead, sized, start + length, rex, f, operands, data)
  {
    hide SizeItems, ItemSize, ItemRex, InsnBytes, AllReadable, OperandsOk, Undone, Laid, PrefixBytes, LockBytes;
    var (length, sized, rex) := InsnSize(items, ins, x64).value;
    SizedItems(items, ins, x64);
    LengthsAgree(items, ins, x64, start + length);
    LaidBytes(items, lead, sized, start + length, rex, f, data);
    OperandsSame(ins, sized.prefixes);
    CodeRoundTrip(items, lead, sized, start + length, rex, f, operands, data);
  }

  // What calcsize checked of every item still holds with the prefixes completed.
  lemma SizedItems(items: seq<Item>, ins: Insn, x64: bool)
    requires InsnSize(items, ins, x64).Some?
    ensures
      var sized := InsnSize(items, ins, x64).value.1;
      forall it :: it in items ==> ItemSize(it, sized).Some? && !ItemRex(it, sized).b && !ItemRex(it, sized).x
  {
    hide SizeItems, ItemSize, ItemRex, PrefixBytes;
    var s := SizeItems(items, ins).value;
    SizeSnoc(items, ins);
    SamePrefixSize(items, ins);
    ExtensionFree(items, ins);
    forall it | it in items
      ensures
        var sized := ins.(prefixes := s.prefixes);
        ItemSize(it, sized).Some? && !ItemRex(it, sized).b && !ItemRex(it, sized).x
    {
      ItemSizeSame(it, ins, s.prefixes);
      RexSame(it, ins, s.prefixes);
    }
  }

  lemma LaidBytes(items: seq<Item>, lead: nat, ins: Insn, base: int, rex: Rex, f: Scanned, data: seq<byte>)
    requires Laid(items, lead, ins, base, rex, f, data)
    ensures lead <= |items| && data == InsnBytes(items, ins, base, rex)
  {
  }

  lemma OperandsSame(ins: Insn, p: Prefixes)
    requires OperandsOk(ins)
    ensures OperandsOk(ins.(prefixes := p))
  {
  }

  // ---- An instruction whose template demands a prefix ----

  // paddb xmm1, xmm2 as 66 0F FC /r: the operand size prefix belongs to the template.
  const PADDB: seq<Item> := [Fixed(241), Literal([0x0F, 0xFC]), RegMem(0, 1)]
  const XMM_1_2 := Insn([RegOp(Reg(Vector, 1)), RegOp(Reg(Vector, 2))], NO_PREFIXES, 32, 0)
  const WIDE_SCAN := NOTHING_YET.(sizes := Modes(16, 32))

  lemma MandatoryPrefix()
    ensures InsnSize(PADDB, XMM_1_2, true) == Some((4, XMM_1_2, NO_REX))
    ensures OperandsOk(XMM_1_2) && forall it :: it in PADDB ==> Legal(it)
    ensures Laid(PADDB, 1, XMM_1_2, 4, NO_REX, WIDE_SCAN, [0x66, 0x0F, 0xFC, 0xCA])
    ensures AllReadable(PADDB, XMM_1_2, WIDE_SCAN, StartState(WIDE_SCAN))
  {
    hide InsnSize, Laid, AllReadable, OperandsOk, Legal;
    SizeOfPaddb();
    BytesOfPaddb();
    PaddbReadable();
  }

  lemma PaddbReadable()
    ensures OperandsOk(XMM_1_2) && forall it :: it in PADDB ==> Legal(it)
    ensures AllReadable(PADDB, XMM_1_2, WIDE_SCAN, StartState(WIDE_SCAN))
  {
    assert PADDB[1..] == [Literal([0x0F, 0xFC]), RegMem(0, 1)] && PADDB[1..][1..] == [RegMem(0, 1)];
    assert [RegMem(0, 1)][1..] == [];
    var s := After(Fixed(241), StartState(WIDE_SCAN));
    assert AllReadable([RegMem(0, 1)], XMM_1_2, WIDE_SCAN, s);
    assert AllReadable(PADDB[1..], XMM_1_2, WIDE_SCAN, s);
  }

  lemma SizeOfPaddb()
    ensures InsnSize(PADDB, XMM_1_2, true) == Some((4, XMM_1_2, NO_REX))
  {
    NoPrefixBytes();
    StepsOfPaddb();
    hide PrefixBytes, SizeItems;
  }

  lemma StepsOfPaddb()
    ensures SizeItems(PADDB, XMM_1_2) == Some(Sizing(4, NO_REX, false, NO_PREFIXES))
  {
    hide EaOf;
    assert PADDB[..2] == [Fixed(241), Literal([0x0F, 0xFC])] && PADDB[..2][..1] == [Fixed(241)];
    assert SizeItems([Fixed(241)], XMM_1_2) == Some(Sizing(1, NO_REX, false, NO_PREFIXES));
    assert SizeItems(PADDB[..2], XMM_1_2) == Some(Sizing(3, NO_REX, false, NO_PREFIXES));
  }

  lemma NoPrefixBytes()
    ensures PrefixBytes(NO_PREFIXES) == []
  {
    assert SlotBytes(NO_PREFIXES, 2) == [] && SlotBytes(NO_PREFIXES, 4) == [];
  }

  lemma CodeOfPaddb()
    ensures PADDB[..1] == [Fixed(241)] && CodeBytes(PADDB[..1], XMM_1_2, 4, false) == [0x66]
    ensures CodeBytes(PADDB, XMM_1_2, 4, false) == [0x66, 0x0F, 0xFC, 0xCA]
  {
    assert PADDB[..1] == [Fixed(241)] && PADDB[1..] == [Literal([0x0F, 0xFC]), RegMem(0, 1)];
    assert PADDB[1..][1..] == [RegMem(0, 1)];
    assert EaBytes(Ea(0xCA, None, 0, false, false), 0) == [0xCA];
    assert CodeBytes([RegMem(0, 1)], XMM_1_2, 4, false) == [0xCA];
    assert CodeBytes(PADDB[1..], XMM_1_2, 4, false) == [0x0F, 0xFC, 0xCA];
  }

  lemma BytesOfPaddb()
    ensures Laid(PADDB, 1, XMM_1_2, 4, NO_REX, WIDE_SCAN, [0x66, 0x0F, 0xFC, 0xCA])
  {
    NoPrefixBytes();
    CodeOfPaddb();
    hide PrefixBytes, CodeBytes;
    ScansIf([0x66], NOTHING_YET, WIDE_SCAN);
    assert PADDB[1..] == [Literal([0x0F, 0xFC]), RegMem(0, 1)];
    assert [] + [0x66, 0x0F, 0xFC, 0xCA] == [0x66, 0x0F, 0xFC, 0xCA];
  }
}
