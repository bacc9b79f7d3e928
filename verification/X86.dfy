// Registers, bytes and memory operands shared by the encoder and the decoder.

module X86 {
  import opened Common

  // The flag sets of the register table, as far as an effective address tells them apart.
  // High8 are ah, ch, dh and bh; Ctl32 are control, debug and test registers: 32 bits wide but not general.
  datatype RegClass = Gpr8 | High8 | Gpr16 | Gpr32 | Gpr64 | Ctl32 | Vector | Mmx | Other

  // The address size prefix of an instruction.
  datatype Asize = NoAsize | A16 | A32 | A64 | ASP

  datatype Reg = Reg(cls: RegClass, num: nat)

  datatype Hint = NoHint | MakeBase | NotBase | Summed

  // The eaflags bits.
  datatype EaFlags = EaFlags(byteOffs: bool, wordOffs: bool, timesTwo: bool, mib: bool, sib: bool)

  // A memory operand as the parser leaves it.  `relocated` says that the offset has a segment base,
  // `forward` that it is not known yet; both rule out a short displacement.
  datatype MemOp = MemOp(
    base: Option<Reg>,
    index: Option<Reg>,
    scale: int,
    offset: int,
    dispSize: nat,
    flags: EaFlags,
    hintBase: Option<Reg>,
    hint: Hint,
    relocated: bool,
    forward: bool)

  const TWO8: nat := 0x100
  const TWO16: nat := 0x1_0000
  const TWO32: nat := 0x1_0000_0000
  const TWO64: nat := 0x1_0000_0000_0000_0000

  // Two's complement readings of the low 8, 16 and 32 bits.
  function Signed8(x: int): (r: int)
    ensures -128 <= r < 128 && (r - x) % TWO8 == 0
    ensures -128 <= x < 128 ==> r == x
  {
    if x % TWO8 < 128 then x % TWO8 else x % TWO8 - TWO8
  }

  function Signed16(x: int): (r: int)
    ensures -0x8000 <= r < 0x8000 && (r - x) % TWO16 == 0
  {
    if x % TWO16 < 0x8000 then x % TWO16 else x % TWO16 - TWO16
  }

  function Signed32(x: int): (r: int)
    ensures -0x8000_0000 <= r < 0x8000_0000 && (r - x) % TWO32 == 0
  {
    if x % TWO32 < 0x8000_0000 then x % TWO32 else x % TWO32 - TWO32
  }

  // The registers' contents; what an address is computed from.
  type RegFile = Reg -> int

  // The number the operand stands for before it is cut to the address size.
  function Linear(m: MemOp, v: RegFile): int {
    m.offset
    + (if m.base.Some? then v(m.base.value) else 0)
    + (if m.index.Some? then m.scale * v(m.index.value) else 0)
  }

  // Little-endian bytes of x, cut to n bytes.
  function Little(x: int, n: nat): (r: seq<byte>)
    ensures |r| == n
    decreases n
  {
    if n == 0 then [] else [x % 256] + Little(x / 256, n - 1)
  }

  // Reading past the end yields zero: the code buffer is cleared before every instruction.
  function At(data: seq<byte>, i: nat): byte {
    if i < |data| then data[i] else 0
  }

  function Word(data: seq<byte>, i: nat): (r: nat)
    ensures r < TWO16
  {
    At(data, i) + 256 * At(data, i + 1)
  }

  function Dword(data: seq<byte>, i: nat): (r: nat)
    ensures r < TWO32
  {
    Word(data, i) + 0x10000 * Word(data, i + 2)
  }

  ghost predicate Holds(data: seq<byte>, i: nat, x: seq<byte>) {
    i + |x| <= |data| && data[i..i + |x|] == x
  }

  lemma HoldsPart(data: seq<byte>, i: nat, x: seq<byte>, y: seq<byte>)
    requires Holds(data, i, x + y)
    ensures Holds(data, i, x) && Holds(data, i + |x|, y)
  {
    assert data[i..i + |x|] == (x + y)[..|x|];
    assert data[i + |x|..i + |x| + |y|] == (x + y)[|x|..];
  }

  lemma HoldsAt(data: seq<byte>, i: nat, x: seq<byte>, j: nat)
    requires Holds(data, i, x) && j < |x|
    ensures At(data, i + j) == x[j]
  {
    assert data[i..i + |x|][j] == x[j];
  }

  lemma SplitWord(x: int)
    ensures x % TWO16 == x % 256 + 256 * (x / 256 % 256)
  {
  }

  lemma SplitDword(x: int)
    ensures x % TWO32 == x % TWO16 + TWO16 * (x / 256 / 256 % TWO16)
  {
    assert x / 256 / 256 == x / TWO16;
  }

  lemma ReadWord(data: seq<byte>, i: nat, x: int)
    requires Holds(data, i, Little(x, 2))
    ensures Word(data, i) == x % TWO16
  {
    assert Little(x, 2) == [x % 256] + Little(x / 256, 1);
    assert Little(x / 256, 1) == [x / 256 % 256];
    HoldsAt(data, i, Little(x, 2), 0);
    HoldsAt(data, i, Little(x, 2), 1);
    SplitWord(x);
  }

  lemma LittleSplit(x: int)
    ensures Little(x, 4) == Little(x, 2) + Little(x / 256 / 256, 2)
  {
    assert Little(x, 4) == [x % 256] + Little(x / 256, 3);
    assert Little(x / 256, 3) == [x / 256 % 256] + Little(x / 256 / 256, 2);
    assert Little(x, 2) == [x % 256] + Little(x / 256, 1);
    assert Little(x / 256, 1) == [x / 256 % 256] + Little(x / 256 / 256, 0);
  }

  lemma ReadBack(data: seq<byte>, i: nat, x: int, n: nat)
    requires Holds(data, i, Little(x, n))
    ensures n == 1 ==> At(data, i) == x % 256
    ensures n == 2 ==> Word(data, i) == x % TWO16
    ensures n == 4 ==> Dword(data, i) == x % TWO32
  {
    if n == 1 {
      HoldsAt(data, i, Little(x, 1), 0);
    } else if n == 2 {
      ReadWord(data, i, x);
    } else if n == 4 {
      LittleSplit(x);
      HoldsPart(data, i, Little(x, 2), Little(x / 256 / 256, 2));
      ReadWord(data, i, x);
      ReadWord(data, i + 2, x / 256 / 256);
      SplitDword(x);
    }
  }
}
