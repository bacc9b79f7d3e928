// calcsize and gencode walk the same template twice, and agree.

module TemplateLength {
  import opened Common
  import opened X86
  import opened EaSpec
  import opened TemplateSpec

  lemma ItemLength(it: Item, ins: Insn, base: int)
    requires ItemSize(it, ins).Some?
    ensures |ItemBytes(it, ins, base, false)| == ItemSize(it, ins).value
    ensures !it.LockRex? ==> ItemBytes(it, ins, base, true) == ItemBytes(it, ins, base, false)
  {
  }

  // The first LOCK-as-REX.R item, if any.
  predicate HasLock(items: seq<Item>) {
    exists i :: 0 <= i < |items| && items[i].LockRex?
  }

  // Only the sizing state's own prefixes change, never what an item's size depends on.
  lemma {:induction false} SizeSnoc(items: seq<Item>, ins: Insn)
    requires SizeItems(items, ins).Some?
    ensures forall i :: 0 <= i < |items| ==> ItemSize(items[i], ins).Some?
    ensures SizeItems(items, ins).value.length == Total(items, ins)
    ensures SizeItems(items, ins).value.rex.l == HasLock(items)
  {
    if items != [] {
      var init, last := items[..|items| - 1], items[|items| - 1];
      SizeSnoc(init, ins);
      assert forall i :: 0 <= i < |init| ==> init[i] == items[i];
      LockFlag(last, ins);
      TotalSnoc(init, last, ins);
      assert init + [last] == items;
      if HasLock(items) && !last.LockRex? {
        var i :| 0 <= i < |items| && items[i].LockRex?;
        assert init[i].LockRex?;
      }
    }
  }

  lemma LockFlag(it: Item, ins: Insn)
    ensures ItemRex(it, ins).l == it.LockRex?
  {
  }

  function Total(items: seq<Item>, ins: Insn): nat {
    if items == [] then 0
    else (if ItemSize(items[0], ins).Some? then ItemSize(items[0], ins).value else 0) + Total(items[1..], ins)
  }

  lemma {:induction false} TotalSnoc(items: seq<Item>, it: Item, ins: Insn)
    requires ItemSize(it, ins).Some?
    ensures Total(items + [it], ins) == Total(items, ins) + ItemSize(it, ins).value
  {
    if items != [] {
      TotalSnoc(items[1..], it, ins);
      assert (items + [it])[1..] == items[1..] + [it];
    }
  }

  lemma {:induction false} CodeLength(items: seq<Item>, ins: Insn, base: int, rexR: bool)
    requires forall i :: 0 <= i < |items| ==> ItemSize(items[i], ins).Some?
    ensures |CodeBytes(items, ins, base, rexR)| == Total(items, ins) + if rexR && HasLock(items) then 1 else 0
  {
    if items != [] {
      hide ItemSize, ItemBytes;
      var rest := items[1..];
      ItemLength(items[0], ins, base);
      LockByte(items[0], ins, base);
      assert forall i :: 0 <= i < |rest| ==> rest[i] == items[i + 1];
      CodeLength(rest, ins, base, rexR && !items[0].LockRex?);
      if HasLock(items) && !items[0].LockRex? {
        var i :| 0 <= i < |items| && items[i].LockRex?;
        assert rest[i - 1].LockRex?;
      }
    }
  }

  lemma LockByte(it: Item, ins: Insn, base: int)
    ensures it.LockRex? ==> ItemBytes(it, ins, base, true) == [0xF0] && ItemBytes(it, ins, base, false) == []
    ensures it.LockRex? ==> ItemSize(it, ins) == Some(0)
  {
  }

  // The sizes of the items do not depend on the prefixes that calcsize fills in.
  lemma {:induction false} SamePrefixSize(items: seq<Item>, ins: Insn)
    requires SizeItems(items, ins).Some?
    ensures SizeItems(items, ins).value.prefixes.asize == ins.prefixes.asize
  {
    if items != [] {
      SamePrefixSize(items[..|items| - 1], ins);
    }
  }

  lemma ItemSizeSame(it: Item, ins: Insn, p: Prefixes)
    requires p.asize == ins.prefixes.asize
    ensures ItemSize(it, ins.(prefixes := p)) == ItemSize(it, ins)
  {
  }

  lemma {:induction false} TotalSame(items: seq<Item>, ins: Insn, p: Prefixes)
    requires p.asize == ins.prefixes.asize
    ensures Total(items, ins.(prefixes := p)) == Total(items, ins)
  {
    hide ItemSize;
    if items != [] {
      ItemSizeSame(items[0], ins, p);
      TotalSame(items[1..], ins, p);
    }
  }

  // Main result: whenever calcsize succeeds, gencode puts out exactly that many bytes.
  lemma LengthsAgree(items: seq<Item>, ins: Insn, x64: bool, base: int)
    requires InsnSize(items, ins, x64).Some?
    ensures
      var (length, sized, rex) := InsnSize(items, ins, x64).value;
      |InsnBytes(items, sized, base, rex)| == length
  {
    hide ItemSize, ItemBytes, ItemRex, PrefixBytes, Total, SizeItems;
    var s := SizeItems(items, ins).value;
    var sized := ins.(prefixes := s.prefixes);
    SizeSnoc(items, ins);
    SamePrefixSize(items, ins);
    TotalSame(items, ins, s.prefixes);
    forall i | 0 <= i < |items| ensures ItemSize(items[i], sized).Some? {
      ItemSizeSame(items[i], ins, s.prefixes);
    }
    CodeLength(items, sized, base, FinalRex(s).r);
    assert FinalRex(s).r ==> LockBytes(s, x64) == Some(1) && s.rex.l;
  }
}
