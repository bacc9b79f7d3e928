// Which bytes every bytecode matches, and what it reads.

module TemplateMatch {
  import opened Common
  import opened Positional
  import opened X86
  import opened EaSpec
  import opened EaMeaning
  import opened TemplateSpec
  import opened TemplateScan
  import opened TemplateRead

  // A literal matches itself.
  lemma LiteralMatches(b: seq<byte>, data: seq<byte>, pos: nat, f: Scanned, s: State)
    ensures ReadItem(Literal(b), data, pos, f, s).Match? <==> forall i :: 0 <= i < |b| ==> At(data, pos + i) == b[i]
    ensures
      ReadItem(Literal(b), data, pos, f, s).Match? ==> ReadItem(Literal(b), data, pos, f, s) == Match([], pos + |b|)
  {
    var x := Slice(data, pos, |b|);
    assert forall i :: 0 <= i < |b| ==> x[i] == At(data, pos + i);
    if forall i :: 0 <= i < |b| ==> At(data, pos + i) == b[i] {
      assert x == b;
    }
  }

  // +r matches the opcode with one of eight registers added.
  lemma RegisterMatches(op: nat, t: byte, data: seq<byte>, pos: nat, f: Scanned, s: State)
    ensures
      forall n: nat ::
        ReadItem(PlusReg(op, t), data, pos, f, s) == Match([RegWrite(op, n)], pos + 1) <==>
        n < 8 && At(data, pos) == t + n
    ensures
      ReadItem(PlusReg(op, t), data, pos, f, s).Match? ==>
        exists n: nat :: ReadItem(PlusReg(op, t), data, pos, f, s) == Match([RegWrite(op, n)], pos + 1)
  {
  }

  // A condition code matches the opcode with one of sixteen conditions added.
  lemma ConditionMatches(t: byte, data: seq<byte>, pos: nat, f: Scanned, s: State)
    ensures
      forall n: nat ::
        ReadItem(Cond(t), data, pos, f, s) == Match([CondWrite(n)], pos + 1) <==> n < 16 && At(data, pos) == t + n
    ensures
      ReadItem(Cond(t), data, pos, f, s).Match? ==>
        exists n: nat :: ReadItem(Cond(t), data, pos, f, s) == Match([CondWrite(n)], pos + 1)
  {
  }

  // The register field of 0171: any register between the given outer fields.
  lemma FieldMatches(op: nat, high: nat, mid: nat, low: nat, data: seq<byte>, pos: nat, f: Scanned, s: State)
    requires high < 4 && mid < 8 && low < 8
    ensures
      forall n: nat ::
        ReadItem(RegField(op, 64 * high + 8 * mid + low), data, pos, f, s) ==
          Match([RegWrite(op, n + if s.rexR then 8 else 0)], pos + 1) <==>
        n < 8 && At(data, pos) as int == 64 * high + 8 * n + low
  {
    hide At;
    var t, d: nat := 64 * high + 8 * mid + low, At(data, pos);
    ByteFields(high, mid, low);
    ByteFields(d / 64, d / 8 % 8, d % 8);
    Rejoin(d);
    forall n: nat
      ensures
        ReadItem(RegField(op, t), data, pos, f, s) == Match([RegWrite(op, n + if s.rexR then 8 else 0)], pos + 1) <==>
        n < 8 && d == 64 * high + 8 * n + low
    {
      if n < 8 {
        ByteFields(high, n, low);
      }
    }
  }

  lemma ByteFields(high: nat, mid: nat, low: nat)
    requires high < 4 && mid < 8 && low < 8
    ensures
      var t := 64 * high + 8 * mid + low;
      t / 64 == high && t / 8 % 8 == mid && t % 8 == low
  {
  }

  lemma Rejoin(d: nat)
    requires d < 256
    ensures d / 64 < 4 && d == 64 * (d / 64) + 8 * (d / 8 % 8) + d % 8
  {
  }

  // /r and /digit: the fields of the ModRM byte, and the address behind them.
  lemma ModrmMatches(r: nat, m: nat, data: seq<byte>, pos: nat, f: Scanned, s: State)
    ensures
      var e := DecodeEa(data, pos + 1, At(data, pos), f.sizes.asize, 32, false, false);
      ReadItem(RegMem(r, m), data, pos, f, s) ==
      Match([EaWrite(m, e), RegWrite(r, At(data, pos) as nat / 8 % 8 + if s.rexR then 8 else 0)], e.next)
    ensures
      forall d: nat {:trigger Digit(d, m)} ::
        ReadItem(Digit(d, m), data, pos, f, s).Match? <==> At(data, pos) as nat / 8 % 8 == d
  {
    hide DecodeEa;
  }

  // A ModRM byte with 3 on top is a register, by its last three bits.
  lemma RegisterForm(data: seq<byte>, pos: nat, mid: nat, n: nat, asize: nat)
    requires mid < 8 && n < 8
    ensures DecodeEa(data, pos, 0xC0 + 8 * mid + n, asize, 32, false, false) == Direct(n, pos)
  {
    ByteFields(3, mid, n);
  }

  // Immediates: as many bytes as the bytecode says, lowest first, and signed where it says so.
  lemma ImmediateReads(op: nat, n: nat, data: seq<byte>, pos: nat, f: Scanned, s: State)
    requires n == 1 || n == 2 || n == 4 || n == 8
    ensures ReadItem(Imm(op, n), data, pos, f, s) == Match([OffsetWrite(op, BytesValue(data, pos, n))], pos + n)
  {
    TwoBytes(data, pos);
    if n == 8 {
      TwoBytes(data, pos + 4);
      EightBytes(data, pos);
    }
    hide BytesValue, Word, Dword, At;
  }

  lemma EightBytes(data: seq<byte>, pos: nat)
    ensures BytesValue(data, pos, 8) == BytesValue(data, pos, 4) + TWO32 * BytesValue(data, pos + 4, 4)
  {
    assert BytesValue(data, pos, 8) == At(data, pos) as nat + 256 * BytesValue(data, pos + 1, 7);
    assert BytesValue(data, pos + 1, 7) == At(data, pos + 1) as nat + 256 * BytesValue(data, pos + 2, 6);
    assert BytesValue(data, pos + 2, 6) == At(data, pos + 2) as nat + 256 * BytesValue(data, pos + 3, 5);
    assert BytesValue(data, pos + 3, 5) == At(data, pos + 3) as nat + 256 * BytesValue(data, pos + 4, 4);
    FourBytes(data, pos);
  }

  lemma FourBytes(data: seq<byte>, pos: nat)
    ensures
      BytesValue(data, pos, 4) ==
      At(data, pos) as nat + 256 * At(data, pos + 1) as nat + 0x1_0000 * At(data, pos + 2) as nat
        + 0x100_0000 * At(data, pos + 3) as nat
  {
    TwoBytes(data, pos);
  }

  // A signed number of n bytes.
  predicate SignedBytes(x: int, data: seq<byte>, pos: nat, n: nat) {
    || (n == 1 && -0x80 <= x < 0x80 && (x - BytesValue(data, pos, 1)) % 0x100 == 0)
    || (n == 2 && -0x8000 <= x < 0x8000 && (x - BytesValue(data, pos, 2)) % 0x1_0000 == 0)
    || (n == 4 && -0x8000_0000 <= x < 0x8000_0000 && (x - BytesValue(data, pos, 4)) % 0x1_0000_0000 == 0)
  }

  lemma SignedReads(it: Item, op: nat, n: nat, data: seq<byte>, pos: nat, f: Scanned, s: State) returns (x: int)
    requires (it == ImmSext(op, n) && (n == 1 || n == 4)) || (it == Rel(op, n) && (n == 1 || n == 2 || n == 4))
    ensures ReadItem(it, data, pos, f, s) == Match([OffsetWrite(op, x)], pos + n) && SignedBytes(x, data, pos, n)
  {
    TwoBytes(data, pos);
    hide BytesValue, Word, Dword, At, Signed8, Signed16, Signed32;
    x := SignedValue(data, pos, n);
  }

  // The size of iwd and rel is the operand size that has been scanned.
  lemma SizedReads(op: nat, data: seq<byte>, pos: nat, f: Scanned, s: State) returns (x: int)
    ensures
      var n := if s.osize == 32 then 4 else 2;
      && ReadItem(ImmBySize(op), data, pos, f, s) == Match([OffsetWrite(op, BytesValue(data, pos, n))], pos + n)
      && ReadItem(RelBySize(op), data, pos, f, s) == Match([OffsetWrite(op, x)], pos + n)
      && SignedBytes(x, data, pos, n)
    ensures
      var n := if f.sizes.asize == 16 then 2 else 4;
      ReadItem(MemOffset(op), data, pos, f, s) == Match([OffsetWrite(op, BytesValue(data, pos, n))], pos + n)
  {
    TwoBytes(data, pos);
    hide BytesValue, Word, Dword, At, Signed8, Signed16, Signed32;
    x := SignedValue(data, pos, SizeRead(s));
  }
}
