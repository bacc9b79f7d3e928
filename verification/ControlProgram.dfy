// Generated programs, and a machine that runs them.

module ControlProgram {
  import opened Common

  // LOOP tests ecx only; LOOPE/LOOPZ and LOOPNE/LOOPNZ also test the zero flag.
  datatype LoopKind = LoopEcx | LoopFlag(wantZero: bool)

  // One entry of the instruction list.  `Plain` is any straight-line line of text.
  datatype Insn =
    | Plain(id: nat)
    | Label(n: nat)
    | Jmp(n: nat)
    | Jcc(n: nat)
    | MovEcx(times: int)
    | Loop(kind: LoopKind, n: nat)
    | Call(n: nat)
    | Ret

  const TWO32: nat := 0x1_0000_0000

  // The machine.  Flags are not modelled: every decision that depends on one
  // consults the oracle at position `used`.
  datatype Config = Config(pc: nat, stack: seq<nat>, ecx: nat, out: seq<nat>, used: nat)

  type Oracle = nat -> bool

  const START := Config(0, [], 0, [], 0)

  // Index of the first occurrence of label n, or |prog| when it is missing.
  function Find(prog: seq<Insn>, n: nat): (i: nat)
    ensures i <= |prog|
    ensures i < |prog| ==> prog[i] == Label(n)
    ensures forall j :: 0 <= j < i ==> prog[j] != Label(n)
  {
    if prog == [] then 0
    else if prog[0] == Label(n) then 0
    else
      var r := Find(prog[1..], n);
      assert forall j :: 0 < j < 1 + r ==> prog[j] == prog[1..][j - 1];
      1 + r
  }

  function JumpTo(prog: seq<Insn>, c: Config, n: nat): Option<Config> {
    var i := Find(prog, n);
    if i < |prog| then Some(c.(pc := i)) else None
  }

  // One instruction; None when the machine is stuck (no such label, empty return stack, past the end).
  function Step(prog: seq<Insn>, o: Oracle, c: Config): Option<Config> {
    if c.pc >= |prog| then None
    else
      match prog[c.pc]
      case Plain(id) => Some(c.(pc := c.pc + 1, out := c.out + [id]))
      case Label(_) => Some(c.(pc := c.pc + 1))
      case Jmp(n) => JumpTo(prog, c, n)
      case Jcc(n) =>
        var d := c.(used := c.used + 1);
        if o(c.used) then JumpTo(prog, d, n) else Some(d.(pc := c.pc + 1))
      case MovEcx(t) => Some(c.(pc := c.pc + 1, ecx := t % TWO32))
      case Loop(kind, n) =>
        var e := (c.ecx + TWO32 - 1) % TWO32;
        var d := c.(ecx := e, used := if kind.LoopEcx? then c.used else c.used + 1);
        if e != 0 && (kind.LoopEcx? || o(c.used) == kind.wantZero)
        then JumpTo(prog, d, n)
        else Some(d.(pc := c.pc + 1))
      case Call(n) => JumpTo(prog, c.(stack := c.stack + [c.pc + 1]), n)
      case Ret =>
        if c.stack == [] then None
        else Some(c.(pc := c.stack[|c.stack| - 1], stack := c.stack[..|c.stack| - 1]))
  }

  // Runs until the program counter first stands at `stop`; None when that takes more than `fuel` steps.
  function Reach(prog: seq<Insn>, o: Oracle, c: Config, stop: nat, fuel: nat): Option<Config>
    decreases fuel
  {
    if c.pc == stop then Some(c)
    else if fuel == 0 then None
    else
      match Step(prog, o, c)
      case None => None
      case Some(d) => Reach(prog, o, d, stop, fuel - 1)
  }

  lemma {:induction false} MoreFuel(prog: seq<Insn>, o: Oracle, c: Config, stop: nat, f: nat, g: nat)
    requires Reach(prog, o, c, stop, f).Some? && f <= g
    ensures Reach(prog, o, c, stop, g) == Reach(prog, o, c, stop, f)
    decreases f
  {
    hide Step;
    if c.pc != stop {
      MoreFuel(prog, o, Step(prog, o, c).value, stop, f - 1, g - 1);
    }
  }

  function InsertAt<T>(s: seq<T>, q: nat, x: seq<T>): (r: seq<T>)
    requires q <= |s|
    ensures |r| == |s| + |x|
  {
    s[..q] + x + s[q..]
  }

  predicate SameLabel(prog: seq<Insn>, i: nat, j: nat) {
    i < |prog| && j < |prog| && prog[i].Label? && prog[j] == prog[i]
  }

  predicate UniqueLabels(prog: seq<Insn>) {
    forall i, j :: 0 <= i < j < |prog| ==> !SameLabel(prog, i, j)
  }

  predicate Has(prog: seq<Insn>, n: nat) {
    Label(n) in prog
  }

  lemma FindIs(prog: seq<Insn>, n: nat, i: nat)
    requires UniqueLabels(prog) && i < |prog| && prog[i] == Label(n)
    ensures Find(prog, n) == i
  {
    var f := Find(prog, n);
    assert f <= i && prog[f] == Label(n);
    assert f < i ==> SameLabel(prog, f, i);
  }

  lemma FindHas(prog: seq<Insn>, n: nat)
    ensures Has(prog, n) <==> Find(prog, n) < |prog|
  {
  }
}
