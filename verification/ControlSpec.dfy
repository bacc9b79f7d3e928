// The steps of the generator on sequences.

module ControlSpec {
  import opened Common
  import opened ControlProgram
  import opened ControlSplice

  // The list, the index of the insert position (-1 while the list is empty) and the next label number.
  datatype Gen = Gen(prog: seq<Insn>, pos: int, labels: nat)

  // A complete step.  `choice` is the random number behind the choice of an existing label.
  datatype Op =
    | Straight(id: nat)
    | RandomLabel
    | Jump(choice: nat)
    | CondJump(choice: nat)
    | LoopBlock(kind: LoopKind, times: int, body: seq<nat>)
    | CallBlock(body: seq<nat>)

  const EMPTY := Gen([], -1, 0)

  // The code x goes in behind the insert position, which moves on by `keep` entries.
  function Emit(g: Gen, x: seq<Insn>, keep: nat, newLabels: nat): Gen
    requires -1 <= g.pos < |g.prog|
  {
    Gen(InsertAt(g.prog, g.pos + 1, x), g.pos + keep, g.labels + newLabels)
  }

  // A jump over a fresh label goes in front of label k; the insert position moves between the two.
  function EmitPad(g: Gen, k: nat): Gen {
    var i := Find(g.prog, k);
    Gen(InsertAt(g.prog, i, Pad(k, g.labels)), i + 1, g.labels + 1)
  }

  function Plains(body: seq<nat>): (r: seq<Insn>)
    ensures |r| == |body|
  {
    seq(|body|, i requires 0 <= i < |body| => Plain(body[i]))
  }

  function LoopCode(kind: LoopKind, times: int, body: seq<nat>, n: nat): seq<Insn> {
    [MovEcx(times), Label(n + 1)] + Plains(body) + [Loop(kind, n + 1), Label(n)]
  }

  function CallCode(body: seq<nat>, n: nat): seq<Insn> {
    [Jmp(n + 1), Label(n)] + Plains(body) + [Ret, Label(n + 1), Call(n), Label(n + 2)]
  }

  function Apply(g: Gen, op: Op): (r: Gen)
    requires -1 <= g.pos < |g.prog|
    ensures -1 <= r.pos < |r.prog|
  {
    var n := g.labels;
    match op
    case Straight(id) => Emit(g, [Plain(id)], 1, 0)
    case RandomLabel => Emit(g, [Label(n)], 1, 1)
    case Jump(choice) =>
      if n == 0 then Emit(g, [Label(0), Jmp(0)], 1, 1)
      else EmitPad(Emit(g, [Jmp(n)], 1, 0), choice % n)
    case CondJump(choice) =>
      if n == 0 then Emit(g, [Jcc(0), Label(0), Jmp(0)], 2, 1)
      else EmitPad(Emit(g, [Jcc(n), Jmp(n)], 2, 0), choice % n)
    case LoopBlock(kind, times, body) => Emit(g, LoopCode(kind, times, body, n), |body| + 4, 2)
    case CallBlock(body) => Emit(g, CallCode(body, n), |body| + 6, 3)
  }

  function Finish(g: Gen): Gen
    requires -1 <= g.pos < |g.prog|
  {
    var p := InsertAt(g.prog, g.pos + 1, [Jmp(g.labels)]);
    Gen(p + [Label(g.labels)], |p|, g.labels + 1)
  }

  // Every label below `labels` is defined exactly once, every branch target is such a label, and
  // control falls through the entry at the insert position.
  ghost predicate Valid(g: Gen) {
    && -1 <= g.pos < |g.prog|
    && (g.pos == -1 ==> g.prog == [])
    && (g.pos >= 0 ==> FallsThrough(g.prog[g.pos]))
    && UniqueLabels(g.prog)
    && (forall k: nat :: Has(g.prog, k) <==> k < g.labels)
    && TargetsBelow(g.prog, g.labels)
  }

  predicate TargetsBelow(p: seq<Insn>, n: nat) {
    forall i :: 0 <= i < |p| && Branches(p[i]) ==> p[i].n < n
  }

  // The new labels of x are those from g.labels up to g.labels + extra, each once, and its branches stay below.
  ghost predicate Extends(g: Gen, x: seq<Insn>, extra: nat) {
    && UniqueLabels(x)
    && (forall k: nat :: Has(x, k) <==> g.labels <= k < g.labels + extra)
    && TargetsBelow(x, g.labels + extra)
  }

  lemma InsertHas(p: seq<Insn>, q: nat, x: seq<Insn>, i: Insn)
    requires q <= |p|
    ensures i in InsertAt(p, q, x) <==> i in p || i in x
  {
    var np := InsertAt(p, q, x);
    assert p == p[..q] + p[q..];
    assert i in np <==> i in p[..q] || i in x || i in p[q..];
  }

  lemma InsertValid(g: Gen, q: nat, x: seq<Insn>, extra: nat)
    requires Valid(g) && q <= |g.prog| && Extends(g, x, extra)
    ensures FreshLabels(g.prog, x)
    ensures
      var p := InsertAt(g.prog, q, x);
      && UniqueLabels(p)
      && (forall k: nat :: Has(p, k) <==> k < g.labels + extra)
      && TargetsBelow(p, g.labels + extra)
  {
    forall i | 0 <= i < |x| && x[i].Label? ensures x[i] !in g.prog {
      assert x[i] == Label(x[i].n);
      assert Has(x, x[i].n);
      assert !Has(g.prog, x[i].n);
    }
    InsertUnique(g.prog, q, x);
    var p := InsertAt(g.prog, q, x);
    forall k: nat ensures Has(p, k) <==> k < g.labels + extra {
      InsertHas(g.prog, q, x, Label(k));
      assert Has(g.prog, k) <==> k < g.labels;
      assert Has(x, k) <==> g.labels <= k < g.labels + extra;
    }
    forall i | 0 <= i < |p| && Branches(p[i]) ensures p[i].n < g.labels + extra {
      if i < q { assert p[i] == g.prog[i]; }
      else if i < q + |x| { assert p[i] == x[i - q]; }
      else { assert p[i] == g.prog[i - |x|]; }
    }
  }

  // ---- Arriving at the insert position ----

  // A run of the unfinished program first reaches the insert position after f steps with an empty return
  // stack, and c is its state once it has fallen through that entry.
  ghost predicate AtFront(g: Gen, o: Oracle, f: nat, c: Config) {
    if g.pos < 0 then c == START
    else
      && Reach(g.prog, o, START, g.pos, f).Some?
      && Reach(g.prog, o, START, g.pos, f).value.stack == []
      && Step(g.prog, o, Reach(g.prog, o, START, g.pos, f).value) == Some(c)
  }

  lemma ReachPc(prog: seq<Insn>, o: Oracle, c: Config, stop: nat, f: nat)
    requires Reach(prog, o, c, stop, f).Some?
    ensures Reach(prog, o, c, stop, f).value.pc == stop
    decreases f
  {
  }

  lemma FrontFacts(g: Gen, o: Oracle, f: nat, c: Config)
    requires Valid(g) && AtFront(g, o, f, c)
    ensures c.pc == g.pos + 1 && c.stack == []
  {
    if g.pos >= 0 {
      ReachPc(g.prog, o, START, g.pos, f);
    }
  }

  lemma ReachHere(prog: seq<Insn>, o: Oracle, c: Config)
    ensures Reach(prog, o, c, c.pc, 0) == Some(c)
  {
  }

  lemma ReachStep(prog: seq<Insn>, o: Oracle, c: Config, d: Config, stop: nat, f: nat)
    requires Step(prog, o, c) == Some(d) && c.pc != stop
    ensures Reach(prog, o, c, stop, f + 1) == Reach(prog, o, d, stop, f)
  {
  }

  lemma SameFall(prog: seq<Insn>, np: seq<Insn>, o: Oracle, d: Config)
    requires d.pc < |prog| && d.pc < |np| && prog[d.pc] == np[d.pc] && FallsThrough(prog[d.pc])
    ensures Step(np, o, d) == Step(prog, o, d)
  {
  }

  // Code put behind the insert position is entered with the state c; if it runs up to its own entry keep-1,
  // so does the longer program.
  lemma EmitFront(g: Gen, o: Oracle, f: nat, c: Config, x: seq<Insn>, keep: nat, h: nat, e: Config)
    requires Valid(g) && AtFront(g, o, f, c) && FreshLabels(g.prog, x)
    requires 0 < keep <= |x| && FallsThrough(x[keep - 1])
    requires e.stack == []
    requires Reach(InsertAt(g.prog, g.pos + 1, x), o, c, g.pos + keep, h) == Some(e)
    ensures
      var np := InsertAt(g.prog, g.pos + 1, x);
      Reach(np, o, START, g.pos + keep, f + 1 + h) == Some(e)
  {
    hide Find, UniqueLabels, FreshLabels, Step, Reach;
    var np := InsertAt(g.prog, g.pos + 1, x);
    if g.pos < 0 {
      MoreFuel(np, o, START, keep - 1, h, f + 1 + h);
    } else {
      ReachPc(g.prog, o, START, g.pos, f);
      var d := Reach(g.prog, o, START, g.pos, f).value;
      assert np[g.pos] == g.prog[g.pos];
      SameFall(g.prog, np, o, d);
      ReachStep(np, o, d, c, g.pos + keep, h);
      assert ShiftConfig(g.pos + 1, |x|, d) == d;
      assert ShiftConfig(g.pos + 1, |x|, START) == START;
      SpliceReach(g.prog, g.pos, x, o, START, f, g.pos + keep, h + 1);
    }
  }

  lemma JumpStep(prog: seq<Insn>, o: Oracle, c: Config, n: nat)
    requires c.pc < |prog| && prog[c.pc] == Jmp(n) && Find(prog, n) < |prog|
    ensures Step(prog, o, c) == Some(c.(pc := Find(prog, n)))
  {
  }

  // The branch to a label that the pad in front of label k will define.
  predicate BranchCode(x: seq<Insn>, m: nat) {
    x == [Jmp(m)] || x == [Jcc(m), Jmp(m)]
  }

  // The program with the branch in place and the pad inserted: what the run from the insert position meets.
  ghost predicate Padded(np: seq<Insn>, i: nat, w: nat, x: seq<Insn>, m: nat, entry: Insn) {
    && i + 1 < |np| && np[i + 1] == Label(m) && Find(np, m) == i + 1
    && w + |x| < |np| && np[w] == entry && FallsThrough(entry)
    && (forall j :: 0 <= j < |x| ==> np[w + 1 + j] == x[j])
    && (w + |x| < i || w >= i + 2)
  }

  // Both labels of an insertion that defines none.
  lemma InsertBranch(prog: seq<Insn>, q: nat, x: seq<Insn>, k: nat, m: nat)
    requires q <= |prog| && UniqueLabels(prog) && Has(prog, k) && !Has(prog, m) && BranchCode(x, m)
    ensures FreshLabels(prog, x)
    ensures
      var p1 := InsertAt(prog, q, x);
      UniqueLabels(p1) && Has(p1, k) && !Has(p1, m) && Find(p1, k) == Shift(q, |x|, Find(prog, k)) < |p1|
  {
    InsertUnique(prog, q, x);
    InsertHas(prog, q, x, Label(k));
    InsertHas(prog, q, x, Label(m));
    FindShift(prog, q, x, k);
    FindHas(prog, k);
  }

  lemma BranchMoves(prog: seq<Insn>, pos: nat, x: seq<Insn>, i: nat, pad: seq<Insn>)
    requires pos < |prog| && |pad| == 2
    requires i <= pos || pos + |x| < i <= |prog| + |x|
    ensures
      var np := InsertAt(InsertAt(prog, pos + 1, x), i, pad);
      var w := Shift(i, 2, pos);
      && w + |x| < |np| && np[w] == prog[pos]
      && (forall j :: 0 <= j < |x| ==> np[w + 1 + j] == x[j])
      && (w + |x| < i || w >= i + 2)
  {
    var p1 := InsertAt(prog, pos + 1, x);
    var np := InsertAt(p1, i, pad);
    assert p1[pos] == prog[pos];
    forall j | 0 <= j < |x| ensures np[Shift(i, 2, pos) + 1 + j] == x[j] {
      assert p1[pos + 1 + j] == x[j];
      assert np[Shift(i, 2, pos + 1 + j)] == p1[pos + 1 + j];
    }
  }

  lemma PadLayout(prog: seq<Insn>, pos: nat, x: seq<Insn>, k: nat, m: nat)
    requires pos < |prog| && FallsThrough(prog[pos]) && UniqueLabels(prog)
    requires Has(prog, k) && !Has(prog, m) && BranchCode(x, m)
    ensures
      var p1 := InsertAt(prog, pos + 1, x);
      var i := Find(p1, k);
      && UniqueLabels(p1) && Has(p1, k) && !Has(p1, m) && i < |p1|
      && Padded(InsertAt(p1, i, Pad(k, m)), i, Shift(i, 2, pos), x, m, prog[pos])
      && InsertAt(p1, i, Pad(k, m))[i] == Jmp(k) && Find(InsertAt(p1, i, Pad(k, m)), k) == i + 2
  {
    hide UniqueLabels, InsertAt, Step, Reach, FallsThrough, Find, FreshLabels, SameEntry;
    InsertBranch(prog, pos + 1, x, k, m);
    var p1 := InsertAt(prog, pos + 1, x);
    var i := Find(p1, k);
    BranchMoves(prog, pos, x, i, Pad(k, m));
    PadEntries(p1, k, m, i);
    PadUnique(p1, k, m);
  }

  lemma PadUnique(p1: seq<Insn>, k: nat, m: nat)
    requires UniqueLabels(p1) && Has(p1, k) && !Has(p1, m)
    ensures
      var i := Find(p1, k);
      i <= |p1| && Find(InsertAt(p1, i, Pad(k, m)), m) == i + 1
  {
    var i := Find(p1, k);
    InsertUnique(p1, i, Pad(k, m));
    assert InsertAt(p1, i, Pad(k, m))[i + 1] == Label(m);
    FindIs(InsertAt(p1, i, Pad(k, m)), m, i + 1);
  }

  // From the old insert position through the branch to the label of the pad.
  lemma PadTail(np: seq<Insn>, i: nat, w: nat, x: seq<Insn>, m: nat, entry: Insn, o: Oracle, a: Config)
    returns (r: Config)
    requires Padded(np, i, w, x, m, entry) && BranchCode(x, m) && a.pc == w
    ensures Step(np, o, a).Some? && Reach(np, o, a, i + 1, 4) == Some(r)
    ensures r == Step(np, o, a).value.(pc := i + 1, used := a.used + |x| - 1)
  {
    assert np[w + 1] == x[0] && np[w + |x|] == x[|x| - 1];
    var s1 := Step(np, o, a).value;
    var s2 := Step(np, o, s1).value;
    r := if s2.pc == i + 1 then s2 else Step(np, o, s2).value;
    MoreFuel(np, o, r, i + 1, 0, 1);
    MoreFuel(np, o, r, i + 1, 0, 2);
    assert Reach(np, o, s2, i + 1, 2) == Some(r);
    assert Reach(np, o, s1, i + 1, 3) == Some(r);
  }

  // The run to the old insert position, on through the branch and the pad to the new one.
  lemma PadFront(g: Gen, o: Oracle, f: nat, c: Config, x: seq<Insn>, k: nat) returns (f': nat, c': Config)
    requires Valid(g) && g.pos >= 0 && AtFront(g, o, f, c) && k < g.labels && BranchCode(x, g.labels)
    ensures AtFront(EmitPad(Emit(g, x, |x|, 0), k), o, f', c')
    ensures c' == c.(pc := c'.pc, used := c.used + |x| - 1)
  {
    hide Reach, UniqueLabels, Find, InsertAt;
    var m := g.labels;
    var p1 := InsertAt(g.prog, g.pos + 1, x);
    assert Has(g.prog, k) && !Has(g.prog, m);
    PadLayout(g.prog, g.pos, x, k, m);
    var i := Find(p1, k);
    var np := InsertAt(p1, i, Pad(k, m));
    ReachPc(g.prog, o, START, g.pos, f);
    var d := Reach(g.prog, o, START, g.pos, f).value;
    var a := d.(pc := Shift(i, 2, g.pos));
    var r := PadTail(np, i, a.pc, x, m, g.prog[g.pos], o, a);
    PadRun(g, o, f, x, k, p1, i, np, d, r);
    f' := 2 * f + 5;
    c' := r.(pc := i + 2);
  }

  lemma PadRun(g: Gen, o: Oracle, f: nat, x: seq<Insn>, k: nat, p1: seq<Insn>, i: nat, np: seq<Insn>, d: Config,
               r: Config)
    requires Valid(g) && g.pos >= 0 && k < g.labels && BranchCode(x, g.labels)
    requires p1 == InsertAt(g.prog, g.pos + 1, x) && i == Find(p1, k) && np == InsertAt(p1, i, Pad(k, g.labels))
    requires Reach(g.prog, o, START, g.pos, f) == Some(d) && d.stack == []
    requires Reach(np, o, d.(pc := Shift(i, 2, g.pos)), i + 1, 4) == Some(r)
    ensures EmitPad(Emit(g, x, |x|, 0), k) == Gen(np, i + 1, g.labels + 1)
    ensures Reach(np, o, START, i + 1, 2 * f + 5) == Some(r)
  {
    hide Reach, Step, UniqueLabels, Find, InsertAt, FreshLabels;
    var m := g.labels;
    assert Has(g.prog, k) && !Has(g.prog, m);
    PadLayout(g.prog, g.pos, x, k, m);
    InsertBranch(g.prog, g.pos + 1, x, k, m);
    ReachPc(g.prog, o, START, g.pos, f);
    assert ShiftConfig(g.pos + 1, |x|, d) == d && ShiftConfig(g.pos + 1, |x|, START) == START;
    ReachHere(p1, o, d);
    SpliceReach(g.prog, g.pos, x, o, START, f, g.pos, 0);
    var start' := START.(pc := Shift(i, 2, 0));
    PadReach(p1, k, m, o, START, start', g.pos, f, i + 1, 4, r);
    if i == 0 {
      JumpStep(np, o, START, k);
      ReachStep(np, o, START, start', 1, 2 * f + 4);
    } else {
      MoreFuel(np, o, START, i + 1, 2 * f + 4, 2 * f + 5);
    }
  }
}
