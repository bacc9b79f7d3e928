// The prefixes that the disassembler shows.

module TemplatePrefix {
  import opened Common
  import opened X86
  import opened TemplateSpec
  import opened TemplateScan
  import opened TemplateRead
  import opened TemplateBack

  // ---- What calcsize fills in ----

  // The repeat prefix and the operand size of the template, if the instruction has none of its own.
  function FirstRep(items: seq<Item>): Rep {
    if items == [] then NoRep
    else
      var r := FirstRep(items[..|items| - 1]);
      if r.NoRep? && items[|items| - 1].SetRep? then items[|items| - 1].rep else r
  }

  function FirstSize(items: seq<Item>): Osize {
    if items == [] then NoOsize
    else
      var o := FirstSize(items[..|items| - 1]);
      if o.NoOsize? && items[|items| - 1].SetOsize? then items[|items| - 1].o else o
  }

  function Completed(items: seq<Item>, p: Prefixes): Prefixes {
    p.(wait := p.wait || (exists it :: it in items && it.SetWait?),
       rep := if p.rep.NoRep? then FirstRep(items) else p.rep,
       osize := if p.osize.NoOsize? then FirstSize(items) else p.osize)
  }

  lemma {:induction false} SizeCompletes(items: seq<Item>, ins: Insn)
    requires SizeItems(items, ins).Some?
    ensures SizeItems(items, ins).value.prefixes == Completed(items, ins.prefixes)
  {
    hide ItemSize, ItemRex, OrRex, Completed, ItemPrefixes;
    if items == [] {
      CompletedNothing(ins.prefixes);
    } else {
      SizeCompletes(items[..|items| - 1], ins);
      CompletedNext(items, ins.prefixes);
    }
  }

  lemma CompletedNothing(p: Prefixes)
    ensures Completed([], p) == p
  {
  }

  lemma CompletedNext(items: seq<Item>, p: Prefixes)
    requires items != []
    ensures Completed(items, p) == ItemPrefixes(items[|items| - 1], Completed(items[..|items| - 1], p))
  {
    var init, last := items[..|items| - 1], items[|items| - 1];
    assert last in items && forall it :: it in items <==> it in init || it == last;
  }

  lemma {:induction false} FirstSizeIn(items: seq<Item>)
    requires forall it :: it in items ==> Legal(it)
    ensures !FirstSize(items).NoOsize? ==> SetOsize(FirstSize(items)) in items
    ensures FirstSize(items).NoOsize? ==> forall it :: it in items ==> !it.SetOsize?
  {
    if items != [] {
      FirstSizeIn(items[..|items| - 1]);
      assert items == items[..|items| - 1] + [items[|items| - 1]];
    }
  }

  // ---- What the matching leaves ----

  predicate FixedRep(it: Item) {
    it.Fixed? && (it.c == 218 || it.c == 219)
  }

  // Bytecodes that want an operand size which no prefix slot gives.
  predicate FixedSize(it: Item) {
    it.NoForceW? || it.ForceW? || (it.Fixed? && it.c != 218 && it.c != 219 && it.c != 247)
  }

  predicate UsesSize(it: Item) {
    FixedSize(it) || it.SetOsize? || (it.Silent? && it.c == 210)
  }

  lemma {:induction false} FinallyIs(items: seq<Item>, s: State)
    ensures
      var t := Finally(items, s);
      && t.wait == (s.wait && forall it :: it in items ==> !it.SetWait?)
      && t.rep == (if exists it :: it in items && FixedRep(it) then 0 else s.rep)
      && t.lock == (s.lock && forall it :: it in items ==> !it.LockRex?)
      && t.oUsed == (s.oUsed || exists it :: it in items && UsesSize(it))
      && ((forall it :: it in items ==> !it.NoForceW?) ==> t.osize == s.osize)
  {
    hide After, UsesSize, FixedRep;
    if items != [] {
      assert items[0] in items && forall it :: it in items <==> it == items[0] || it in items[1..];
      AfterIs(items[0], s);
      FinallyIs(items[1..], After(items[0], s));
    }
  }

  lemma AfterIs(it: Item, s: State)
    ensures
      var t := After(it, s);
      && t.wait == (s.wait && !it.SetWait?) && t.rep == (if FixedRep(it) then 0 else s.rep)
      && t.lock == (s.lock && !it.LockRex?) && t.oUsed == (s.oUsed || UsesSize(it))
      && (!it.NoForceW? ==> t.osize == s.osize)
  {
  }

  // Without an implied 64-bit size the size bytecodes see the size that was scanned.
  lemma {:induction false} SizesSeen(items: seq<Item>, ins: Insn, f: Scanned, s: State)
    requires AllReadable(items, ins, f, s) && forall it :: it in items ==> !it.NoForceW?
    ensures SetOsize(O16) in items ==> s.osize == 16
    ensures SetOsize(O32) in items ==> s.osize == 32
    ensures forall it :: it in items && it.Silent? && it.c == 210 ==> s.osize == 32
  {
    hide Readable, After;
    if items != [] {
      assert items[0] in items && forall it :: it in items <==> it == items[0] || it in items[1..];
      SizeSeen(items[0], ins, f, s);
      SizesSeen(items[1..], ins, f, After(items[0], s));
    }
  }

  lemma SizeSeen(it: Item, ins: Insn, f: Scanned, s: State)
    requires Readable(it, ins, f, s) && !it.NoForceW?
    ensures After(it, s).osize == s.osize
    ensures it == SetOsize(O16) ==> s.osize == 16
    ensures it == SetOsize(O32) || (it.Silent? && it.c == 210) ==> s.osize == 32
  {
  }

  // What the leading bytecodes add to the scan.
  lemma {:induction false} HeadScans(items: seq<Item>, ins: Insn, base: int, rexR: bool, s: Scanned, f: Scanned)
    requires ScansTo(CodeBytes(items, ins, base, rexR), s, f) && forall it :: it in items ==> ReadsNothing(it)
    ensures f.wait == s.wait
    ensures (forall it :: it in items ==> !FixedRep(it)) ==> f.rep == s.rep
    ensures (forall it :: it in items ==> !it.LockRex?) ==> f.lock == s.lock
    ensures s.lock ==> f.lock
    ensures (forall it :: it in items ==> !FixedSize(it)) ==> f.sizes.osize == s.sizes.osize
  {
    if items != [] {
      var rest := CodeBytes(items[1..], ins, base, rexR && !items[0].LockRex?);
      assert items[0] in items;
      var t := HeadByte(items[0], ins, base, rexR, rest, s, f);
      HeadScans(items[1..], ins, base, rexR && !items[0].LockRex?, t, f);
    }
  }

  lemma HeadByte(it: Item, ins: Insn, base: int, rexR: bool, rest: seq<byte>, s: Scanned, f: Scanned)
    returns (t: Scanned)
    requires ReadsNothing(it) && ScansTo(ItemBytes(it, ins, base, rexR) + rest, s, f)
    ensures ScansTo(rest, t, f) && t.wait == s.wait
    ensures !FixedRep(it) ==> t.rep == s.rep
    ensures !it.LockRex? ==> t.lock == s.lock
    ensures s.lock ==> t.lock
    ensures !FixedSize(it) ==> t.sizes.osize == s.sizes.osize
  {
    var b := ItemBytes(it, ins, base, rexR);
    if b == [] {
      assert b + rest == rest;
      t := s;
    } else {
      assert |b| == 1 && (b + rest)[1..] == rest;
      t := ScanByte(b[0], s).value;
    }
  }

  // ---- The prefixes come back ----

  // The prefixes as they are written with the disassembled instruction.
  function Shown(left: Left, seg: Option<byte>): Prefixes {
    Prefixes(left.wait, if left.rep == 0xF2 then RepF2 else if left.rep == 0xF3 then RepF3 else NoRep, left.lock, seg,
             if left.osize16 then O16 else NoOsize, if left.asize16 then A16 else NoAsize)
  }

  function SizeByte(o: Osize): byte {
    if o.O16? || o.OSP? then 0x66 else 0
  }

  // A prefix of one's own is lost behind one that the template demands as a byte, and LOCK is taken for REX.R.
  predicate PrefixesSeparate(items: seq<Item>, p: Prefixes) {
    && ((exists it :: it in items && FixedRep(it)) ==> p.rep == FirstRep(items))
    && ((exists it :: it in items && it.LockRex?) ==> !p.lock)
    && ((exists it :: it in items && FixedSize(it)) ==> SizeByte(p.osize) == SizeByte(FirstSize(items)))
  }

  // Wait, repeat, lock and operand size prefixes: what is shown, completed by the same template again, is what
  // was assembled, if and only if the prefixes do not get mixed up with those that the template demands.
  lemma PrefixesBack(items: seq<Item>, lead: nat, ins: Insn, x64: bool, start: int, f: Scanned, operands: nat,
                     data: seq<byte>)
    requires InsnSize(items, ins, x64).Some? && forall it :: it in items ==> Legal(it)
    requires
      var (length, sized, rex) := InsnSize(items, ins, x64).value;
      Laid(items, lead, sized, start + length, rex, f, data) && AllReadable(items, sized, f, StartState(f))
    ensures
      var p := InsnSize(items, ins, x64).value.1.prefixes;
      var again := Completed(items, Shown(Leftover(operands, f, Finally(items, StartState(f))), f.seg));
      (again.wait == p.wait && again.rep == p.rep && again.lock == p.lock && SizeByte(again.osize) == SizeByte(p.osize))
      <==> PrefixesSeparate(items, p)
  {
    hide SizeItems, LockBytes, PrefixBytes, ReadsNothing, Laid, AllReadable, Finally, FirstRep, FirstSize;
    var (length, sized, rex) := InsnSize(items, ins, x64).value;
    SizeCompletes(items, ins);
    FinallyIs(items, StartState(f));
    HeadSays(items, lead, sized, start + length, rex, f, data);
    SizeBack(items, ins, sized, f, operands);
  }

  lemma HeadSays(items: seq<Item>, lead: nat, ins: Insn, base: int, rex: Rex, f: Scanned, data: seq<byte>)
    requires Laid(items, lead, ins, base, rex, f, data)
    ensures f.wait == ins.prefixes.wait
    ensures (forall it :: it in items ==> !FixedRep(it)) ==> f.rep == RepByte(ins.prefixes.rep)
    ensures (forall it :: it in items ==> !it.LockRex?) ==> f.lock == ins.prefixes.lock
    ensures (forall it :: it in items ==> !FixedSize(it)) ==>
              (f.sizes.osize == 16 <==> SizeByte(ins.prefixes.osize) != 0)
  {
    hide CodeBytes, Plain, LockLeft, StopsAt, InsnBytes, ScansTo, ReadsNothing;
    HeadScans(items[..lead], ins, base, rex.r, Announced(ins.prefixes), f);
    assert items == items[..lead] + items[lead..];
  }

  lemma SizeBack(items: seq<Item>, ins: Insn, sized: Insn, f: Scanned, operands: nat)
    requires forall it :: it in items ==> Legal(it)
    requires sized.prefixes == Completed(items, ins.prefixes) && AllReadable(items, sized, f, StartState(f))
    requires (forall it :: it in items ==> !FixedSize(it)) ==>
               (f.sizes.osize == 16 <==> SizeByte(sized.prefixes.osize) != 0)
    ensures
      var left := Leftover(operands, f, Finally(items, StartState(f)));
      SizeByte(Completed(items, Shown(left, f.seg)).osize) == SizeByte(sized.prefixes.osize)
      <==>
      ((exists it :: it in items && FixedSize(it)) ==> SizeByte(sized.prefixes.osize) == SizeByte(FirstSize(items)))
  {
    hide AllReadable, Finally, FirstRep, FirstSize, Legal;
    FinallyIs(items, StartState(f));
    FirstSizeIn(items);
    if forall it :: it in items ==> !FixedSize(it) {
      SizesSeen(items, sized, f, StartState(f));
      FirstSizeKinds(items);
    }
  }

  lemma FirstSizeKinds(items: seq<Item>)
    requires forall it :: it in items ==> Legal(it)
    ensures FirstSize(items).NoOsize? || FirstSize(items).O16? || FirstSize(items).O32?
  {
    FirstSizeIn(items);
  }

  // ---- Which prefixes a bytecode wants, by the bytes in front of the opcode ----

  lemma WantedFixed(f: Scanned, s: State)
    ensures Passes(Fixed(241), f, s) <==> f.sizes.osize == 16 && f.rep == 0
    ensures Passes(Fixed(246), f, s) <==> f.sizes.osize == 16
    ensures Passes(Fixed(247), f, s) <==> f.sizes.asize == 16
    ensures Passes(Fixed(218), f, s) <==> f.rep == 0xF2
    ensures Passes(Fixed(219), f, s) <==> f.rep == 0xF3
  {
  }

  lemma WantedSilent(f: Scanned, s: State)
    ensures Passes(Silent(240), f, s) <==> f.sizes.osize != 16 && f.rep == 0
    ensures Passes(Silent(244), f, s) <==> f.sizes.osize != 16
    ensures Passes(Silent(245), f, s) <==> f.sizes.asize != 16
    ensures Passes(Silent(214), f, s) <==> f.rep != 0xF3
    ensures Passes(Silent(217), f, s) <==> f.rep == 0
    ensures Passes(Silent(201), f, s) <==> f.sizes.asize != 16
    ensures Passes(Silent(202), f, s) <==> f.sizes.asize != 16
    ensures Passes(Silent(210), f, s) <==> s.osize == 32
  {
  }

  lemma WantedSizes(f: Scanned, s: State)
    ensures Passes(SetWait, f, s) <==> f.wait
    ensures Passes(AddrA16, f, s) <==> f.sizes.asize == 16
    ensures Passes(SetOsize(O16), f, s) <==> s.osize == 16
    ensures Passes(SetOsize(O32), f, s) <==> s.osize == 32
  {
  }

  lemma WantedPrefixes(x: seq<byte>, f: Scanned, s: State)
    requires ScansTo(x, NOTHING_YET, f)
    ensures Passes(Silent(240), f, s) <==> 0x66 !in x && LastRep(x) == 0
    ensures Passes(Fixed(241), f, s) <==> 0x66 in x && LastRep(x) == 0
    ensures Passes(Silent(244), f, s) <==> 0x66 !in x
    ensures Passes(Silent(245), f, s) <==> 0x67 !in x
    ensures Passes(Fixed(246), f, s) <==> 0x66 in x
    ensures Passes(Fixed(247), f, s) <==> 0x67 in x
    ensures Passes(Fixed(218), f, s) <==> LastRep(x) == 0xF2
    ensures Passes(Fixed(219), f, s) <==> LastRep(x) == 0xF3
    ensures Passes(Silent(214), f, s) <==> LastRep(x) != 0xF3
    ensures Passes(Silent(217), f, s) <==> LastRep(x) == 0
    ensures Passes(SetWait, f, s) <==> 0x9B in x
    ensures Passes(AddrA16, f, s) <==> 0x67 in x
    ensures Passes(Silent(201), f, s) <==> 0x67 !in x
    ensures Passes(Silent(202), f, s) <==> 0x67 !in x
    ensures s.osize == f.sizes.osize ==> (Passes(SetOsize(O16), f, s) <==> 0x66 in x)
    ensures s.osize == f.sizes.osize ==> (Passes(SetOsize(O32), f, s) <==> 0x66 !in x)
    ensures s.osize == f.sizes.osize ==> (Passes(Silent(210), f, s) <==> 0x66 !in x)
  {
    hide Passes, ScansTo, LastRep;
    ScanSays(x, f);
    WantedFixed(f, s);
    WantedSilent(f, s);
    WantedSizes(f, s);
  }
}
