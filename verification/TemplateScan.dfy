// The prefix scan of the disassembler.

module TemplateScan {
  import opened Common
  import opened X86
  import opened EaSpec
  import opened TemplateSpec

  // Operand and address size after the prefixes, in 32-bit code.
  datatype Modes = Modes(osize: nat, asize: nat)

  // What the prefix bytes say.  `escape` is set by the first bytes of a VEX, XOP or EVEX prefix.
  datatype Scanned = Scanned(sizes: Modes, rep: byte, lock: bool, wait: bool, seg: Option<byte>, escape: bool)

  const NOTHING_YET := Scanned(Modes(32, 32), 0, false, false, None, false)

  predicate SegmentByte(b: byte) {
    b == 0x2E || b == 0x36 || b == 0x3E || b == 0x26 || b == 0x64 || b == 0x65
  }

  function ScanByte(b: byte, s: Scanned): Option<Scanned> {
    if b == 0xF2 || b == 0xF3 then Some(s.(rep := b))
    else if b == 0x9B then Some(s.(wait := true))
    else if b == 0xF0 then Some(s.(lock := true))
    else if SegmentByte(b) then Some(s.(seg := Some(b)))
    else if b == 0x66 then Some(s.(sizes := s.sizes.(osize := 16)))
    else if b == 0x67 then Some(s.(sizes := s.sizes.(asize := 16)))
    else None
  }

  // How many bytes of a VEX, XOP or EVEX prefix stand at pos.  Outside long mode its second byte would be the
  // ModRM byte of a register operand, which the older instructions with these opcodes do not take.
  function EscapeLength(data: seq<byte>, pos: nat): nat {
    var b, next := At(data, pos), At(data, pos + 1);
    if next / 64 != 3 then 0
    else if b == 0xC4 then 3
    else if b == 0xC5 then 2
    else if b == 0x62 then 4
    else if b == 0x8F && next / 8 % 4 != 0 then 3
    else 0
  }

  function Scan(data: seq<byte>, pos: nat, s: Scanned): (Scanned, nat)
    decreases if pos < |data| then |data| - pos else 0
  {
    if pos >= |data| then (s, pos)
    else
      var r := ScanByte(data[pos], s);
      if r.Some? then Scan(data, pos + 1, r.value)
      else (s.(escape := s.escape || EscapeLength(data, pos) > 0), pos + EscapeLength(data, pos))
  }

  // The opcode begins at pos.
  predicate StopsAt(data: seq<byte>, pos: nat) {
    pos < |data| ==> ScanByte(data[pos], NOTHING_YET).None? && EscapeLength(data, pos) == 0
  }

  // Every byte of x is a prefix, and together they turn s into t.
  predicate ScansTo(x: seq<byte>, s: Scanned, t: Scanned) {
    if x == [] then s == t else ScanByte(x[0], s).Some? && ScansTo(x[1..], ScanByte(x[0], s).value, t)
  }

  lemma OneByte(data: seq<byte>, pos: nat, b: byte)
    requires Holds(data, pos, [b])
    ensures At(data, pos) == b
  {
    HoldsAt(data, pos, [b], 0);
  }

  lemma {:induction false} ScanAll(x: seq<byte>, data: seq<byte>, pos: nat, s: Scanned, t: Scanned)
    requires Holds(data, pos, x) && ScansTo(x, s, t)
    ensures Scan(data, pos, s) == Scan(data, pos + |x|, t)
    decreases |x|
  {
    if x != [] {
      assert x == [x[0]] + x[1..];
      HoldsPart(data, pos, [x[0]], x[1..]);
      OneByte(data, pos, x[0]);
      ScanAll(x[1..], data, pos + 1, ScanByte(x[0], s).value, t);
    }
  }

  lemma {:induction false} ScansAppend(x: seq<byte>, y: seq<byte>, s: Scanned, t: Scanned, u: Scanned)
    requires ScansTo(x, s, t) && ScansTo(y, t, u)
    ensures ScansTo(x + y, s, u)
  {
    if x == [] {
      assert x + y == y;
    } else {
      assert (x + y)[1..] == x[1..] + y;
      ScansAppend(x[1..], y, ScanByte(x[0], s).value, t, u);
    }
  }

  lemma ScansIf(x: seq<byte>, s: Scanned, t: Scanned)
    requires if x == [] then s == t else |x| == 1 && ScanByte(x[0], s) == Some(t)
    ensures ScansTo(x, s, t)
  {
    if x != [] {
      assert x[1..] == [];
    }
  }

  lemma {:induction false} ScanMoves(data: seq<byte>, pos: nat, s: Scanned)
    ensures Scan(data, pos, s).1 >= pos
    decreases if pos < |data| then |data| - pos else 0
  {
    hide ScanByte;
    if pos < |data| && ScanByte(data[pos], s).Some? {
      ScanMoves(data, pos + 1, ScanByte(data[pos], s).value);
    }
  }

  // The scan ends where the opcode begins, and nowhere else.
  lemma ScanStops(data: seq<byte>, pos: nat, s: Scanned)
    ensures Scan(data, pos, s) == (s, pos) <==> StopsAt(data, pos)
  {
    if pos < |data| {
      SameBytes(data[pos], s);
      if ScanByte(data[pos], s).Some? {
        ScanMoves(data, pos + 1, ScanByte(data[pos], s).value);
      }
    }
  }

  lemma SameBytes(b: byte, s: Scanned)
    ensures ScanByte(b, s).Some? <==> ScanByte(b, NOTHING_YET).Some?
  {
  }

  // ---- What the bytes of a set of prefixes say ----

  function RepByte(r: Rep): byte {
    match r case NoRep => 0 case RepF3 => 0xF3 case RepF2 => 0xF2
  }

  function Announced(p: Prefixes): Scanned {
    Scanned(Modes(if p.osize.O16? || p.osize.OSP? then 16 else 32, if p.asize.A16? || p.asize.ASP? then 16 else 32),
            RepByte(p.rep), p.lock, p.wait, p.seg, false)
  }

  // After the first j slots.
  function Progress(p: Prefixes, j: nat): Scanned {
    var a := Announced(p);
    Scanned(Modes(if j > 4 then a.sizes.osize else 32, if j > 5 then a.sizes.asize else 32),
            if j > 1 then a.rep else 0, j > 2 && a.lock, j > 0 && a.wait, if j > 3 then a.seg else None, false)
  }

  lemma {:induction false} ScansSlots(p: Prefixes, j: nat)
    requires j <= 6 && (p.seg.Some? ==> SegmentByte(p.seg.value))
    ensures ScansTo(SlotBytes(p, j), NOTHING_YET, Progress(p, j))
  {
    hide ScansTo;
    if j == 0 {
      ScansIf([], NOTHING_YET, Progress(p, 0));
    } else {
      ScansSlots(p, j - 1);
      var x := if SlotByte(p, j - 1) != 0 then [SlotByte(p, j - 1)] else [];
      ScansIf(x, Progress(p, j - 1), Progress(p, j));
      ScansAppend(SlotBytes(p, j - 1), x, NOTHING_YET, Progress(p, j - 1), Progress(p, j));
    }
  }

  lemma ScansPrefixes(p: Prefixes)
    requires p.seg.Some? ==> SegmentByte(p.seg.value)
    ensures ScansTo(PrefixBytes(p), NOTHING_YET, Announced(p))
  {
    hide ScansTo, SlotBytes;
    ScansSlots(p, 6);
  }

  // ---- What a run of prefix bytes says ----

  // The last repeat prefix, 0 for none.
  function LastRep(x: seq<byte>): byte {
    if x == [] then 0
    else if x[|x| - 1] == 0xF2 || x[|x| - 1] == 0xF3 then x[|x| - 1] else LastRep(x[..|x| - 1])
  }

  lemma ScansLast(x: seq<byte>, b: byte, s: Scanned, u: Scanned)
    requires ScansTo(x + [b], s, u)
    ensures exists t :: ScansTo(x, s, t) && ScanByte(b, t) == Some(u)
    decreases |x|
  {
    if x == [] {
      assert x + [b] == [b] && [b][1..] == [];
      assert ScansTo([], s, s);
    } else {
      assert (x + [b])[1..] == x[1..] + [b];
      ScansLast(x[1..], b, ScanByte(x[0], s).value, u);
    }
  }

  // Every byte counts, wherever it stands, and of the repeat prefixes the last one.
  lemma {:induction false} ScanSays(x: seq<byte>, f: Scanned)
    requires ScansTo(x, NOTHING_YET, f)
    ensures f.sizes.osize == (if 0x66 in x then 16 else 32) && f.sizes.asize == if 0x67 in x then 16 else 32
    ensures (f.wait <==> 0x9B in x) && (f.lock <==> 0xF0 in x) && f.rep == LastRep(x) && !f.escape
  {
    if x != [] {
      var y, b := x[..|x| - 1], x[|x| - 1];
      assert x == y + [b];
      ScansLast(y, b, NOTHING_YET, f);
      var t :| ScansTo(y, NOTHING_YET, t) && ScanByte(b, t) == Some(f);
      ScanSays(y, t);
    }
  }

  lemma ScanTable(b: byte, s: Scanned)
    ensures
      ScanByte(b, s).Some? <==>
      b in {0xF0, 0xF2, 0xF3, 0x2E, 0x36, 0x3E, 0x26, 0x64, 0x65, 0x66, 0x67, 0x9B}
  {
  }
}
