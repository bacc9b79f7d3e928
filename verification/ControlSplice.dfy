// Runs of a program and of the one with code spliced in.

module ControlSplice {
  import opened Common
  import opened ControlProgram

  // Where index j moves to when w entries are inserted at q.
  function Shift(q: nat, w: nat, j: nat): nat {
    if j < q then j else j + w
  }

  function ShiftAll(q: nat, w: nat, s: seq<nat>): (r: seq<nat>)
    ensures |r| == |s|
  {
    seq(|s|, i requires 0 <= i < |s| => Shift(q, w, s[i]))
  }

  function ShiftConfig(q: nat, w: nat, c: Config): Config {
    c.(pc := Shift(q, w, c.pc), stack := ShiftAll(q, w, c.stack))
  }

  // No label of x is a label of prog, and x repeats none of its own.
  predicate FreshLabels(prog: seq<Insn>, x: seq<Insn>) {
    UniqueLabels(x) && forall i :: 0 <= i < |x| && x[i].Label? ==> x[i] !in prog
  }

  lemma InsertUnique(prog: seq<Insn>, q: nat, x: seq<Insn>)
    requires q <= |prog| && UniqueLabels(prog) && FreshLabels(prog, x)
    ensures UniqueLabels(InsertAt(prog, q, x))
    ensures forall j :: 0 <= j < |prog| ==> InsertAt(prog, q, x)[Shift(q, |x|, j)] == prog[j]
    ensures forall j :: 0 <= j < |x| ==> InsertAt(prog, q, x)[q + j] == x[j]
  {
    var p := InsertAt(prog, q, x);
    forall i, j | 0 <= i < j < |p| && p[i].Label? ensures !SameLabel(p, i, j) {
      if q <= i < q + |x| {
        assert p[i] == x[i - q] && x[i - q] !in prog;
        if j < q + |x| { assert !SameLabel(x, i - q, j - q); } else { assert p[j] == prog[j - |x|]; }
      } else if q <= j < q + |x| {
        assert p[j] == x[j - q];
        assert x[j - q].Label? ==> x[j - q] !in prog;
        assert p[i] == prog[if i < q then i else i - |x|];
      } else {
        assert !SameLabel(prog, if i < q then i else i - |x|, if j < q then j else j - |x|);
      }
    }
  }

  lemma FindShift(prog: seq<Insn>, q: nat, x: seq<Insn>, n: nat)
    requires q <= |prog| && UniqueLabels(prog) && FreshLabels(prog, x) && Has(prog, n)
    ensures Find(InsertAt(prog, q, x), n) == Shift(q, |x|, Find(prog, n))
  {
    InsertUnique(prog, q, x);
    FindHas(prog, n);
    FindIs(InsertAt(prog, q, x), n, Shift(q, |x|, Find(prog, n)));
  }

  // The entry that the generator inserts after: control falls through it.
  predicate FallsThrough(i: Insn) {
    i.Plain? || i.Label?
  }

  predicate Branches(i: Insn) {
    i.Jmp? || i.Jcc? || i.Loop? || i.Call?
  }

  // np holds the entry of prog at pc, moved, and resolves its label to the moved entry.
  ghost predicate SameEntry(prog: seq<Insn>, np: seq<Insn>, q: nat, w: nat, pc: nat) {
    && pc < |prog| && Shift(q, w, pc) < |np|
    && np[Shift(q, w, pc)] == prog[pc]
    && (Branches(prog[pc]) && Find(prog, prog[pc].n) < |prog| ==>
          Find(np, prog[pc].n) < |np| && Find(np, prog[pc].n) == Shift(q, w, Find(prog, prog[pc].n)))
  }

  lemma InsertSameEntry(prog: seq<Insn>, q: nat, x: seq<Insn>, pc: nat)
    requires q <= |prog| && UniqueLabels(prog) && FreshLabels(prog, x) && pc < |prog|
    ensures SameEntry(prog, InsertAt(prog, q, x), q, |x|, pc)
  {
    InsertUnique(prog, q, x);
    if Branches(prog[pc]) {
      FindHas(prog, prog[pc].n);
      if Has(prog, prog[pc].n) {
        FindShift(prog, q, x, prog[pc].n);
      }
    }
  }

  lemma ShiftPush(q: nat, w: nat, s: seq<nat>, a: nat)
    ensures ShiftAll(q, w, s + [a]) == ShiftAll(q, w, s) + [Shift(q, w, a)]
    ensures s != [] ==> ShiftAll(q, w, s[..|s| - 1]) == ShiftAll(q, w, s)[..|s| - 1]
  {
  }

  // One step away from the entry at q-1 is the same step in the longer program.
  lemma SpliceStep(prog: seq<Insn>, np: seq<Insn>, q: nat, w: nat, o: Oracle, c: Config)
    requires SameEntry(prog, np, q, w, c.pc)
    requires c.pc + 1 != q && Step(prog, o, c).Some?
    ensures Step(np, o, ShiftConfig(q, w, c)) == Some(ShiftConfig(q, w, Step(prog, o, c).value))
  {
    hide Find;
    ShiftPush(q, w, c.stack, c.pc + 1);
  }

  // A run up to the entry p, continued in the longer program up to a new entry.
  lemma {:induction false} SpliceReach(prog: seq<Insn>, p: nat, x: seq<Insn>, o: Oracle, c: Config, f: nat,
                                       stop: nat, g: nat)
    requires p < |prog| && UniqueLabels(prog) && FreshLabels(prog, x)
    requires Reach(prog, o, c, p, f).Some?
    requires p <= stop <= p + |x|
    requires
      var d := ShiftConfig(p + 1, |x|, Reach(prog, o, c, p, f).value);
      Reach(InsertAt(prog, p + 1, x), o, d, stop, g).Some?
    ensures
      var d := ShiftConfig(p + 1, |x|, Reach(prog, o, c, p, f).value);
      Reach(InsertAt(prog, p + 1, x), o, ShiftConfig(p + 1, |x|, c), stop, f + g)
        == Reach(InsertAt(prog, p + 1, x), o, d, stop, g)
    decreases f
  {
    hide Step, Find, UniqueLabels, FreshLabels, SameEntry, InsertAt;
    var q, np := p + 1, InsertAt(prog, p + 1, x);
    var c' := ShiftConfig(q, |x|, c);
    if c.pc == p {
      MoreFuel(np, o, c', stop, g, f + g);
    } else {
      StepInside(prog, o, c);
      InsertSameEntry(prog, q, x, c.pc);
      SpliceStep(prog, np, q, |x|, o, c);
      SpliceReach(prog, p, x, o, Step(prog, o, c).value, f - 1, stop, g);
      assert c'.pc != stop;
    }
  }

  // `jmp label k; label m:` put in front of `label k:` at index i.  A return address i may stay on the pad.
  predicate PadRelated(i: nat, c: Config, d: Config) {
    && d == c.(pc := d.pc, stack := d.stack)
    && d.pc == Shift(i, 2, c.pc)
    && |d.stack| == |c.stack|
    && forall j :: 0 <= j < |c.stack| ==>
         d.stack[j] == Shift(i, 2, c.stack[j]) || (c.stack[j] == i && d.stack[j] == i)
  }

  function Pad(k: nat, m: nat): seq<Insn> {
    [Jmp(k), Label(m)]
  }

  lemma StepInside(prog: seq<Insn>, o: Oracle, c: Config)
    requires Step(prog, o, c).Some?
    ensures c.pc < |prog|
  {
  }

  // One step of the old program is one or two steps of the padded one.
  lemma PadStep(prog: seq<Insn>, np: seq<Insn>, i: nat, o: Oracle, c: Config, d: Config) returns (e: Config, two: bool)
    requires SameEntry(prog, np, i, 2, c.pc)
    requires i < |np| && np[i].Jmp? && Find(np, np[i].n) == i + 2 < |np|
    requires PadRelated(i, c, d) && Step(prog, o, c).Some?
    ensures Step(np, o, d).Some?
    ensures
      var s := Step(np, o, d).value;
      if two then s.pc == i && Step(np, o, s) == Some(e) else s == e
    ensures PadRelated(i, Step(prog, o, c).value, e)
  {
    hide Find;
    e := Step(np, o, d).value;
    two := e.pc == i;
    if two {
      e := Step(np, o, e).value;
    }
  }

  lemma PadEntries(prog: seq<Insn>, k: nat, m: nat, pc: nat)
    requires UniqueLabels(prog) && Has(prog, k) && Label(m) !in prog && pc < |prog|
    ensures
      var i := Find(prog, k);
      var np := InsertAt(prog, i, Pad(k, m));
      && SameEntry(prog, np, i, 2, pc)
      && i + 2 < |np| && np[i] == Jmp(k) && np[i + 1] == Label(m) && Find(np, k) == i + 2
  {
    FindHas(prog, k);
    InsertSameEntry(prog, Find(prog, k), Pad(k, m), pc);
    FindShift(prog, Find(prog, k), Pad(k, m), k);
  }

  // A run up to an entry, continued from its counterpart in the padded program up to a further entry.
  lemma {:induction false} PadReach(prog: seq<Insn>, k: nat, m: nat, o: Oracle, c: Config, d: Config, p: nat, f: nat,
                                    stop: nat, g: nat, last: Config)
    requires UniqueLabels(prog) && Has(prog, k) && Label(m) !in prog
    requires PadRelated(Find(prog, k), c, d)
    requires Reach(prog, o, c, p, f).Some? && Reach(prog, o, c, p, f).value.stack == []
    requires stop == Find(prog, k) + 1
    requires
      var r := Reach(prog, o, c, p, f).value;
      Reach(InsertAt(prog, Find(prog, k), Pad(k, m)), o, r.(pc := Shift(Find(prog, k), 2, p)), stop, g) == Some(last)
    ensures Reach(InsertAt(prog, Find(prog, k), Pad(k, m)), o, d, stop, 2 * f + g) == Some(last)
    decreases f
  {
    hide Step, Find, InsertAt, UniqueLabels, SameEntry;
    var i := Find(prog, k);
    var np := InsertAt(prog, i, Pad(k, m));
    if c.pc == p {
      assert c.stack == [] && d.stack == [];
      MoreFuel(np, o, d, stop, g, 2 * f + g);
    } else {
      StepInside(prog, o, c);
      PadEntries(prog, k, m, c.pc);
      var e, two := PadStep(prog, np, i, o, c, d);
      PadReach(prog, k, m, o, Step(prog, o, c).value, e, p, f - 1, stop, g, last);
      if two {
        var s := Step(np, o, d).value;
        assert Reach(np, o, s, stop, 2 * f + g - 1) == Reach(np, o, e, stop, 2 * f + g - 2);
      } else {
        MoreFuel(np, o, e, stop, 2 * f + g - 2, 2 * f + g - 1);
      }
    }
  }
}
