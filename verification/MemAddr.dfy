// Random memory operands and the register locks.

module MemAddr {
  import opened Common
  import opened Arithmetic
  import opened Positional

  datatype Mode = D | B | BD | ISD | BID | BISD {
    predicate HasBase() {
      B? || BD? || BID? || BISD?
    }

    predicate HasIndex() {
      ISD? || BID? || BISD?
    }
  }

  datatype RandomAddr = RandomAddr(section: nat, scale: nat, index: nat, disp: nat)

  const MAX_MEM_SIZE: nat := 128

  // rand() % bound, over a stream of random numbers.
  class Random {
    const stream: nat -> nat
    var at: nat

    constructor (stream: nat -> nat)
      ensures this.stream == stream && at == 0
    {
      this.stream := stream;
      at := 0;
    }

    method Below(bound: nat) returns (r: nat)
      requires bound > 0
      modifies this
      ensures r == stream(old(at)) % bound && r < bound && at == old(at) + 1
    {
      r := stream(at) % bound;
      at := at + 1;
    }
  }

  function Aligned(x: nat): (r: nat)
    ensures r <= x && r % 128 == 0
  {
    x - x % 128
  }

  // Sooner or later a number that is not zero comes up.
  ghost predicate NonzeroFrom(stream: nat -> nat, bound: nat, n: nat)
    requires bound > 0
  {
    exists m: nat :: m >= n && stream(m) % bound != 0
  }

  ghost predicate Lively(stream: nat -> nat, bound: nat) {
    bound > 0 && forall n: nat :: NonzeroFrom(stream, bound, n)
  }

  // Index and displacement that fit into size bytes together, both multiples of 128.
  method AlignedParts(rnd: Random, size: nat, scale: nat) returns (index: nat, disp: nat)
    requires scale in {2, 4, 8} && Lively(rnd.stream, size)
    modifies rnd
    ensures 0 <= scale * index + disp <= size && index % 128 == 0 && disp % 128 == 0
  {
    ghost var from := rnd.at;
    assert NonzeroFrom(rnd.stream, size, from);
    ghost var end: nat :| end >= from && rnd.stream(end) % size != 0;
    var part := rnd.Below(size);
    while part == 0
      invariant part < size && rnd.at > 0 && part == rnd.stream(rnd.at - 1) % size
      invariant part == 0 ==> rnd.at <= end
      decreases end - rnd.at
    {
      part := rnd.Below(size);
    }
    disp := rnd.Below(part);
    disp := Aligned(disp);
    index := Aligned(Quotient(part - disp, scale));
    WholeParts(scale, index, part - disp);
  }

  // Index and displacement that fill size bytes together.
  method FullParts(rnd: Random, size: nat, scale: nat) returns (index: nat, disp: nat)
    requires scale in {2, 4, 8} && size >= 8
    modifies rnd
    ensures scale * index + disp == size
  {
    index := rnd.Below(Quotient(size, scale));
    WholeParts(scale, index, size);
    disp := size - scale * index;
  }

  // Whatever the random numbers and the mode, the operand stays in its section; for SSE it is a multiple of 128.
  method RandomMemAddr(rnd: Random, sizes: seq<nat>, sse: bool, mode: Mode) returns (a: RandomAddr)
    requires |sizes| > 0 && forall i :: 0 <= i < |sizes| ==> sizes[i] >= MAX_MEM_SIZE + 8
    requires sse ==> forall i :: 0 <= i < |sizes| ==> Lively(rnd.stream, sizes[i] - MAX_MEM_SIZE)
    modifies rnd
    ensures a.section == rnd.stream(old(rnd.at)) % |sizes|
    ensures a.scale == 2 * Power(2, rnd.stream(old(rnd.at) + 1) % 3)
    ensures mode.D? || mode.ISD? ==> a.disp == a.section
    ensures a.section < |sizes| && InSection(mode, a, sizes[a.section])
    ensures sse ==> Offset(mode, a) % 128 == 0
  {
    var section := rnd.Below(|sizes|);
    var shift := rnd.Below(3);
    var scale := if shift == 0 then 2 else if shift == 1 then 4 else 8;
    Scales();
    var size := sizes[section] - MAX_MEM_SIZE;
    var index, disp;
    if sse {
      index, disp := AlignedParts(rnd, size, scale);
      AlignedSum(scale, index, disp);
    } else {
      index, disp := FullParts(rnd, size, scale);
    }
    Modes(scale, index, disp, size);
    a := RandomAddr(section, scale, index, if mode.ISD? || mode.D? then section else disp);
  }

  lemma Scales()
    ensures Power(2, 0) == 1 && Power(2, 1) == 2 && Power(2, 2) == 4
  {
  }

  function Quotient(x: nat, scale: nat): (q: nat)
    requires scale in {2, 4, 8}
    ensures scale * q <= x && (x >= 8 ==> q > 0)
  {
    if scale == 2 then x / 2 else if scale == 4 then x / 4 else x / 8
  }

  lemma WholeParts(scale: nat, index: nat, x: nat)
    requires scale in {2, 4, 8} && index <= Quotient(x, scale)
    ensures 0 <= scale * index <= x
  {
    MulMono(index, Quotient(x, scale), scale);
  }

  lemma Modes(scale: nat, index: nat, disp: nat, whole: nat)
    requires scale > 0 && scale * index + disp <= whole
    ensures index + disp <= whole
  {
    MulMono(1, scale, index);
  }

  lemma AlignedSum(scale: nat, index: nat, disp: nat)
    requires scale in {2, 4, 8} && index % 128 == 0 && disp % 128 == 0
    ensures (scale * index + disp) % 128 == 0 && (index + disp) % 128 == 0 && scale * index % 128 == 0
  {
    var a, b := index / 128, disp / 128;
    if scale == 2 {
      Multiple(2 * a + b);
      Multiple(2 * a);
    } else if scale == 4 {
      Multiple(4 * a + b);
      Multiple(4 * a);
    } else {
      Multiple(8 * a + b);
      Multiple(8 * a);
    }
    Multiple(a + b);
  }

  lemma Multiple(k: nat)
    ensures 128 * k % 128 == 0
  {
  }

  // What an operand of each mode adds to the start of its section: a base register holds the start, an index register
  // the index.
  function Offset(mode: Mode, a: RandomAddr): nat {
    MulMono(0, a.scale, a.index);
    match mode
    case D => 0
    case B => 0
    case BD => a.disp
    case ISD => a.scale * a.index
    case BID => a.index + a.disp
    case BISD => a.scale * a.index + a.disp
  }

  // Room for the largest operand stays behind the address.
  predicate InSection(mode: Mode, a: RandomAddr, size: nat) {
    Offset(mode, a) + MAX_MEM_SIZE <= size
  }

  datatype Reg = EAX | ECX | EDX | EBX | ESI | EDI

  datatype LockCase = Free | Mem | Loop

  // The register locks of the generator state.
  class Locks {
    var cases: map<Reg, LockCase>

    constructor ()
      ensures forall r: Reg :: r in cases && cases[r] == Free
    {
      cases := map[EAX := Free, ECX := Free, EDX := Free, EBX := Free, ESI := Free, EDI := Free];
      new;
      forall r: Reg ensures r in cases && cases[r] == Free {
        assert r.EAX? || r.ECX? || r.EDX? || r.EBX? || r.ESI? || r.EDI?;
      }
    }

    ghost predicate Valid()
      reads this
    {
      forall r: Reg :: r in cases
    }

    predicate Locked(r: Reg)
      reads this
    {
      r in cases && cases[r] != Free
    }

    method Lock(r: Reg, c: LockCase)
      requires Valid()
      modifies this
      ensures Valid() && cases == old(cases)[r := c]
    {
      cases := cases[r := c];
    }

    // Frees every register that is locked for this case.
    method Unlock(c: LockCase)
      requires Valid()
      modifies this
      ensures Valid() && forall r: Reg :: cases[r] == if old(cases[r]) == c then Free else old(cases[r])
    {
      cases := map r | r in cases :: if cases[r] == c then Free else cases[r];
    }
  }

  const CHOICES: seq<Reg> := [EAX, ECX, EDX, EBX, ESI, EDI]

  // Sooner or later every register comes up.
  ghost predicate ComesUp(stream: nat -> nat, k: nat, n: nat) {
    exists m: nat :: m >= n && stream(m) % 6 == k
  }

  ghost predicate Fair(stream: nat -> nat) {
    forall k: nat, n: nat :: k < 6 ==> ComesUp(stream, k, n)
  }

  // Draws registers until one is not locked.
  method FreeRegister(rnd: Random, locks: Locks) returns (r: Reg)
    requires rnd as object != locks as object && Fair(rnd.stream) && locks.Valid()
    requires exists k :: 0 <= k < 6 && !locks.Locked(CHOICES[k])
    modifies rnd
    ensures !locks.Locked(r)
  {
    ghost var k :| 0 <= k < 6 && !locks.Locked(CHOICES[k]);
    assert ComesUp(rnd.stream, k, rnd.at);
    ghost var end: nat :| end >= rnd.at && rnd.stream(end) % 6 == k;
    var i := rnd.Below(6);
    while locks.Locked(CHOICES[i])
      invariant i < 6 && rnd.at > 0 && i == rnd.stream(rnd.at - 1) % 6
      invariant i != k ==> rnd.at <= end
      invariant locks.Locked(CHOICES[i]) ==> i != k
      decreases end - rnd.at
    {
      i := rnd.Below(6);
    }
    r := CHOICES[i];
  }

  // A whole operand: the base and the index that the mode asks for are two registers that were free, and all locks
  // are as before. Only the loop counter may be locked on entry.
  method RandomModrm(rnd: Random, locks: Locks, sizes: seq<nat>, sse: bool, offsetOnly: bool)
    returns (mode: Mode, a: RandomAddr, base: Option<Reg>, index: Option<Reg>)
    requires rnd as object != locks as object && Fair(rnd.stream) && locks.Valid()
    requires |sizes| > 0 && forall i :: 0 <= i < |sizes| ==> sizes[i] >= MAX_MEM_SIZE + 8
    requires sse ==> forall i :: 0 <= i < |sizes| ==> Lively(rnd.stream, sizes[i] - MAX_MEM_SIZE)
    requires forall r: Reg :: locks.Locked(r) ==> r == ECX && locks.cases[r] == Loop
    modifies rnd, locks
    ensures locks.Valid() && forall r: Reg :: locks.cases[r] == old(locks.cases[r])
    ensures offsetOnly ==> mode == D
    ensures !offsetOnly ==> Drawn(mode, rnd.stream(old(rnd.at)) % 6)
    ensures a.section < |sizes| && InSection(mode, a, sizes[a.section]) && (sse ==> Offset(mode, a) % 128 == 0)
    ensures base.Some? == mode.HasBase() && index.Some? == mode.HasIndex()
    ensures base.Some? ==> !old(locks.Locked(base.value))
    ensures index.Some? ==> !old(locks.Locked(index.value))
    ensures base.Some? && index.Some? ==> base != index
  {
    hide Offset, InSection;
    mode := D;
    if !offsetOnly {
      var m := rnd.Below(6);
      mode := [D, B, BD, ISD, BID, BISD][m];
    }
    a := RandomMemAddr(rnd, sizes, sse, mode);
    base, index := None, None;
    if mode.HasBase() {
      assert !locks.Locked(CHOICES[0]);
      var r := FreeRegister(rnd, locks);
      locks.Lock(r, Mem);
      base := Some(r);
    }
    if mode.HasIndex() {
      OneFree(locks, base);
      var r := FreeRegister(rnd, locks);
      index := Some(r);
    }
    locks.Unlock(Mem);
  }

  // The mode by the number drawn for it.
  predicate Drawn(mode: Mode, m: nat) {
    && (m == 0 ==> mode.D?) && (m == 1 ==> mode.B?) && (m == 2 ==> mode.BD?)
    && (m == 3 ==> mode.ISD?) && (m == 4 ==> mode.BID?) && (m == 5 ==> mode.BISD?)
  }

  // Two locks leave one of the first four registers free.
  lemma OneFree(locks: Locks, base: Option<Reg>)
    requires forall r: Reg :: locks.Locked(r) ==> r == ECX || base == Some(r)
    ensures exists k :: 0 <= k < 6 && !locks.Locked(CHOICES[k])
  {
    assert CHOICES[0] == EAX && CHOICES[2] == EDX;
    if base == Some(EAX) {
      assert !locks.Locked(CHOICES[2]);
    } else {
      assert !locks.Locked(CHOICES[0]);
    }
  }
}
