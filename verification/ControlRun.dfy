// Runs of whole generated programs.

module ControlRun {
  import opened Common
  import opened ControlProgram
  import opened ControlSplice
  import opened ControlSpec
  import opened ControlValid

  // ---- What a finished program must execute ----

  // Rounds of a loop entered with `left` rounds to go; a flag-testing loop consults the oracle once a round.
  function Rounds(kind: LoopKind, left: nat, o: Oracle, used: nat): (r: nat)
    requires left > 0
    ensures 0 < r <= left
    ensures kind.LoopEcx? ==> r == left
  {
    if left == 1 || (kind.LoopFlag? && o(used) != kind.wantZero) then 1
    else 1 + Rounds(kind, left - 1, o, if kind.LoopEcx? then used else used + 1)
  }

  function Repeat(s: seq<nat>, n: nat): (r: seq<nat>)
    ensures |r| == n * |s|
  {
    if n == 0 then [] else s + Repeat(s, n - 1)
  }

  // ecx holds 32 bits, and LOOP counts down before it tests: 0 stands for 2^32 rounds.
  function LoopTimes(times: int): (r: nat)
    ensures 0 < r <= TWO32
    ensures 0 < times <= TWO32 ==> r == times
  {
    if times % TWO32 == 0 then TWO32 else times % TWO32
  }

  // The straight-line lines an operation adds to the run, and how much of the oracle it uses.
  function OpTrace(op: Op, o: Oracle, used: nat): (seq<nat>, nat) {
    match op
    case Straight(id) => ([id], used)
    case RandomLabel => ([], used)
    case Jump(_) => ([], used)
    case CondJump(_) => ([], used + 1)
    case LoopBlock(kind, times, body) =>
      var r := Rounds(kind, LoopTimes(times), o, used);
      (Repeat(body, r), if kind.LoopEcx? then used else used + r)
    case CallBlock(body) => (body, used)
  }

  function Trace(ops: seq<Op>, o: Oracle): (seq<nat>, nat) {
    if ops == [] then ([], 0)
    else
      var (t, used) := Trace(ops[..|ops| - 1], o);
      var (t', used') := OpTrace(ops[|ops| - 1], o, used);
      (t + t', used')
  }

  // ---- Running through freshly inserted code ----

  ghost predicate CodeAt(prog: seq<Insn>, q: nat, x: seq<Insn>) {
    q + |x| <= |prog| && forall j {:trigger x[j]} :: 0 <= j < |x| ==> prog[q + j] == x[j]
  }

  lemma CodeAtPart(prog: seq<Insn>, q: nat, a: seq<Insn>, b: seq<Insn>)
    requires CodeAt(prog, q, a + b)
    ensures CodeAt(prog, q, a) && CodeAt(prog, q + |a|, b)
  {
    assert forall j :: 0 <= j < |a| ==> (a + b)[j] == a[j];
    assert forall j :: 0 <= j < |b| ==> (a + b)[|a| + j] == b[j];
  }

  lemma {:induction false} RunPlains(prog: seq<Insn>, q: nat, body: seq<nat>, o: Oracle, c: Config, stop: nat, f: nat)
    requires CodeAt(prog, q, Plains(body)) && c.pc == q && (stop < q || stop >= q + |body|)
    requires
      Reach(prog, o, c.(pc := q + |body|, out := c.out + body), stop, f).Some?
    ensures
      Reach(prog, o, c, stop, |body| + f) == Reach(prog, o, c.(pc := q + |body|, out := c.out + body), stop, f)
    decreases |body|
  {
    hide Find, Reach;
    if body == [] {
      assert c.out + body == c.out;
    } else {
      var d := c.(pc := q + 1, out := c.out + [body[0]]);
      assert prog[q] == Plains(body)[0];
      assert Step(prog, o, c) == Some(d);
      forall j | 0 <= j < |body| - 1 ensures prog[q + 1 + j] == Plains(body[1..])[j] {
        assert prog[q + (1 + j)] == Plains(body)[1 + j];
      }
      assert c.out + body == d.out + body[1..];
      RunPlains(prog, q + 1, body[1..], o, d, stop, f);
      ReachStep(prog, o, c, d, stop, |body| - 1 + f);
    }
  }

  // One round of a loop body whose head label stands at q, down to the exit label behind the loop entry.
  lemma {:induction false} RunLoop(prog: seq<Insn>, q: nat, kind: LoopKind, body: seq<nat>, h: nat, n: nat, o: Oracle,
                                   c: Config, left: nat) returns (f: nat, e: Config)
    requires CodeAt(prog, q, [Label(h)] + Plains(body) + [Loop(kind, h), Label(n)])
    requires Find(prog, h) == q < |prog| && c.pc == q && 0 < left <= TWO32 && c.ecx == left % TWO32
    ensures Reach(prog, o, c, q + |body| + 2, f) == Some(e)
    ensures
      var r := Rounds(kind, left, o, c.used);
      && e.pc == q + |body| + 2 && e.stack == c.stack && e.out == c.out + Repeat(body, r)
      && e.used == if kind.LoopEcx? then c.used else c.used + r
    decreases left
  {
    hide Step, Reach, CodeAt;
    var stop := q + |body| + 2;
    LoopCodeParts(prog, q, kind, body, h, n);
    var atBody := c.(pc := q + 1);
    var atLoop := atBody.(pc := q + 1 + |body|, out := c.out + body);
    LabelStep(prog, o, c);
    assert Repeat(body, 1) == body + [] == body;
    var g: nat, d: Config;
    if left == 1 || (kind.LoopFlag? && o(c.used) != kind.wantZero) {
      LoopExit(prog, o, atLoop, left, kind, h);
      d := Step(prog, o, atLoop).value;
      ReachHere(prog, o, d);
      g, e := 0, d;
    } else {
      LoopAgain(prog, o, atLoop, left, kind, h);
      d := Step(prog, o, atLoop).value;
      g, e := RunLoop(prog, q, kind, body, h, n, o, d, left - 1);
      var r := Rounds(kind, left - 1, o, d.used);
      assert c.out + (body + Repeat(body, r)) == (c.out + body) + Repeat(body, r);
    }
    ReachStep(prog, o, atLoop, d, stop, g);
    RunPlains(prog, q + 1, body, o, atBody, stop, g + 1);
    ReachStep(prog, o, c, atBody, stop, |body| + g + 1);
    f := |body| + g + 2;
  }

  lemma LabelStep(prog: seq<Insn>, o: Oracle, c: Config)
    requires c.pc < |prog| && prog[c.pc].Label?
    ensures Step(prog, o, c) == Some(c.(pc := c.pc + 1))
  {
  }

  lemma LoopCodeParts(prog: seq<Insn>, q: nat, kind: LoopKind, body: seq<nat>, h: nat, n: nat)
    requires CodeAt(prog, q, [Label(h)] + Plains(body) + [Loop(kind, h), Label(n)])
    ensures q + |body| + 2 < |prog| && prog[q] == Label(h) && CodeAt(prog, q + 1, Plains(body))
    ensures prog[q + 1 + |body|] == Loop(kind, h) && prog[q + |body| + 2] == Label(n)
  {
    CodeAtPart(prog, q, [Label(h)] + Plains(body), [Loop(kind, h), Label(n)]);
    CodeAtPart(prog, q, [Label(h)], Plains(body));
    assert prog[q + 0] == [Label(h)][0];
    var t := [Loop(kind, h), Label(n)];
    assert prog[q + (1 + |body|) + 0] == t[0] && prog[q + (1 + |body|) + 1] == t[1];
  }

  lemma LoopExit(prog: seq<Insn>, o: Oracle, c: Config, left: nat, kind: LoopKind, h: nat)
    requires c.pc < |prog| && prog[c.pc] == Loop(kind, h) && 0 < left <= TWO32 && c.ecx == left % TWO32
    requires left == 1 || (kind.LoopFlag? && o(c.used) != kind.wantZero)
    ensures Step(prog, o, c).Some?
    ensures
      var d := Step(prog, o, c).value;
      d == c.(pc := c.pc + 1, ecx := d.ecx, used := if kind.LoopEcx? then c.used else c.used + 1)
  {
  }

  lemma LoopAgain(prog: seq<Insn>, o: Oracle, c: Config, left: nat, kind: LoopKind, h: nat)
    requires c.pc < |prog| && prog[c.pc] == Loop(kind, h) && 1 < left <= TWO32 && c.ecx == left % TWO32
    requires kind.LoopEcx? || o(c.used) == kind.wantZero
    requires Find(prog, h) < |prog|
    ensures Step(prog, o, c) == Some(c.(pc := Find(prog, h), ecx := left - 1,
                                        used := if kind.LoopEcx? then c.used else c.used + 1))
  {
  }

  lemma RunLoopCode(prog: seq<Insn>, q: nat, kind: LoopKind, times: int, body: seq<nat>, n: nat, o: Oracle, c: Config)
    returns (f: nat, e: Config)
    requires CodeAt(prog, q, LoopCode(kind, times, body, n)) && UniqueLabels(prog) && c.pc == q
    ensures Reach(prog, o, c, q + |body| + 3, f) == Some(e)
    ensures
      var t := OpTrace(LoopBlock(kind, times, body), o, c.used);
      e.pc == q + |body| + 3 && e.stack == c.stack && e.out == c.out + t.0 && e.used == t.1
  {
    var x := LoopCode(kind, times, body, n);
    var loop := [Label(n + 1)] + Plains(body) + [Loop(kind, n + 1), Label(n)];
    assert x == [MovEcx(times)] + loop;
    CodeAtPart(prog, q, [MovEcx(times)], loop);
    assert prog[q + 0] == x[0];
    LoopCodeParts(prog, q + 1, kind, body, n + 1, n);
    FindIs(prog, n + 1, q + 1);
    var d := c.(pc := q + 1, ecx := times % TWO32);
    assert Step(prog, o, c) == Some(d);
    f, e := RunLoop(prog, q + 1, kind, body, n + 1, n, o, d, LoopTimes(times));
    ReachStep(prog, o, c, d, q + |body| + 3, f);
    f := f + 1;
  }

  lemma CallCodeParts(prog: seq<Insn>, q: nat, body: seq<nat>, n: nat)
    requires CodeAt(prog, q, CallCode(body, n))
    ensures q + |body| + 6 <= |prog|
    ensures prog[q] == Jmp(n + 1) && prog[q + 1] == Label(n) && CodeAt(prog, q + 2, Plains(body))
    ensures
      var r := q + 2 + |body|;
      prog[r] == Ret && prog[r + 1] == Label(n + 1) && prog[r + 2] == Call(n) && prog[r + 3] == Label(n + 2)
  {
    var a, z := [Jmp(n + 1), Label(n)], [Ret, Label(n + 1), Call(n), Label(n + 2)];
    CodeAtPart(prog, q, a + Plains(body), z);
    CodeAtPart(prog, q, a, Plains(body));
    assert prog[q + 0] == a[0] && prog[q + 1] == a[1];
    var r := q + |a + Plains(body)|;
    assert prog[r + 0] == z[0] && prog[r + 1] == z[1] && prog[r + 2] == z[2] && prog[r + 3] == z[3];
  }

  lemma RunCallCode(prog: seq<Insn>, q: nat, body: seq<nat>, n: nat, o: Oracle, c: Config) returns (f: nat, e: Config)
    requires CodeAt(prog, q, CallCode(body, n)) && UniqueLabels(prog) && c.pc == q
    ensures Reach(prog, o, c, q + |body| + 5, f) == Some(e)
    ensures e == c.(pc := q + |body| + 5, out := c.out + body)
  {
    hide UniqueLabels, CodeAt, Find, Reach, Step;
    CallCodeParts(prog, q, body, n);
    var r, stop := q + 2 + |body|, q + |body| + 5;
    FindIs(prog, n + 1, r + 1);
    FindIs(prog, n, q + 1);
    var c1 := c.(pc := r + 1);
    var c2 := c.(pc := r + 2);
    var c3 := c.(pc := q + 1, stack := c.stack + [r + 3]);
    var c4 := c3.(pc := q + 2);
    var c5 := c4.(pc := r, out := c.out + body);
    e := c.(pc := stop, out := c.out + body);
    ReturnStep(prog, o, c5, c.stack, r + 3);
    ReachHere(prog, o, e);
    ReachStep(prog, o, c5, e, stop, 0);
    RunPlains(prog, q + 2, body, o, c4, stop, 1);
    LabelStep(prog, o, c3);
    ReachStep(prog, o, c3, c4, stop, |body| + 1);
    CallStep(prog, o, c2, n);
    ReachStep(prog, o, c2, c3, stop, |body| + 2);
    LabelStep(prog, o, c1);
    ReachStep(prog, o, c1, c2, stop, |body| + 3);
    JumpStep(prog, o, c, n + 1);
    ReachStep(prog, o, c, c1, stop, |body| + 4);
    f := |body| + 5;
  }

  lemma CallStep(prog: seq<Insn>, o: Oracle, c: Config, n: nat)
    requires c.pc < |prog| && prog[c.pc] == Call(n) && Find(prog, n) < |prog|
    ensures Step(prog, o, c) == Some(c.(pc := Find(prog, n), stack := c.stack + [c.pc + 1]))
  {
  }

  lemma ReturnStep(prog: seq<Insn>, o: Oracle, c: Config, rest: seq<nat>, back: nat)
    requires c.pc < |prog| && prog[c.pc] == Ret && c.stack == rest + [back]
    ensures Step(prog, o, c) == Some(c.(pc := back, stack := rest))
  {
  }

  // ---- Every complete step carries the run on to the new insert position ----

  lemma EmittedCode(prog: seq<Insn>, q: nat, x: seq<Insn>)
    requires q <= |prog| && UniqueLabels(prog) && FreshLabels(prog, x)
    ensures CodeAt(InsertAt(prog, q, x), q, x) && UniqueLabels(InsertAt(prog, q, x))
  {
    InsertUnique(prog, q, x);
  }

  // The last entry of freshly inserted code has been reached in state e.
  lemma EmitArrives(g: Gen, o: Oracle, f: nat, c: Config, x: seq<Insn>, keep: nat, extra: nat, h: nat, e: Config)
    returns (f': nat, c': Config)
    requires Valid(g) && AtFront(g, o, f, c) && Extends(g, x, extra)
    requires 0 < keep <= |x| && FallsThrough(x[keep - 1]) && e.stack == [] && e.pc == g.pos + keep
    requires Reach(InsertAt(g.prog, g.pos + 1, x), o, c, g.pos + keep, h) == Some(e)
    ensures AtFront(Emit(g, x, keep, extra), o, f', c')
    ensures c' == e.(pc := e.pc + 1, out := if x[keep - 1].Plain? then e.out + [x[keep - 1].id] else e.out)
  {
    hide Reach, UniqueLabels, Find, FreshLabels, Extends, Step, AtFront;
    InsertValid(g, g.pos + 1, x, extra);
    EmitFront(g, o, f, c, x, keep, h, e);
    var np := InsertAt(g.prog, g.pos + 1, x);
    assert np[g.pos + keep] == x[keep - 1];
    f' := f + 1 + h;
    c' := FrontIntro(Emit(g, x, keep, extra), o, f', e);
  }

  lemma FrontIntro(g: Gen, o: Oracle, f: nat, e: Config) returns (c: Config)
    requires 0 <= g.pos < |g.prog| && FallsThrough(g.prog[g.pos])
    requires Reach(g.prog, o, START, g.pos, f) == Some(e) && e.stack == [] && e.pc == g.pos
    ensures AtFront(g, o, f, c)
    ensures
      c == e.(pc := e.pc + 1, out := if g.prog[g.pos].Plain? then e.out + [g.prog[g.pos].id] else e.out)
  {
    c := Step(g.prog, o, e).value;
  }

  lemma FirstEntry(g: Gen, o: Oracle, f: nat, c: Config, x: seq<Insn>, extra: nat) returns (f': nat, c': Config)
    requires Valid(g) && AtFront(g, o, f, c) && Extends(g, x, extra) && |x| > 0 && FallsThrough(x[0])
    ensures AtFront(Emit(g, x, 1, extra), o, f', c')
    ensures c' == c.(pc := c.pc + 1, out := if x[0].Plain? then c.out + [x[0].id] else c.out)
  {
    hide UniqueLabels, Extends, AtFront;
    FrontFacts(g, o, f, c);
    ReachHere(InsertAt(g.prog, g.pos + 1, x), o, c);
    f', c' := EmitArrives(g, o, f, c, x, 1, extra, 0, c);
  }

  // jcc label0; label0: -- either way control is at label0.
  lemma FirstCondJump(g: Gen, o: Oracle, f: nat, c: Config) returns (f': nat, c': Config)
    requires Valid(g) && AtFront(g, o, f, c) && g.labels == 0
    ensures AtFront(Emit(g, [Jcc(0), Label(0), Jmp(0)], 2, 1), o, f', c')
    ensures c' == c.(pc := c'.pc, used := c.used + 1)
  {
    hide UniqueLabels, Find, Extends, AtFront, InsertAt, FreshLabels, Step, CodeAt;
    var x := [Jcc(0), Label(0), Jmp(0)];
    ShortExtends(g, x);
    FrontFacts(g, o, f, c);
    InsertValid(g, g.pos + 1, x, 1);
    EmittedCode(g.prog, g.pos + 1, x);
    var h, e := RunCondJump(InsertAt(g.prog, g.pos + 1, x), g.pos + 1, o, c);
    f', c' := EmitArrives(g, o, f, c, x, 2, 1, h, e);
  }

  lemma RunCondJump(np: seq<Insn>, q: nat, o: Oracle, c: Config) returns (h: nat, e: Config)
    requires CodeAt(np, q, [Jcc(0), Label(0), Jmp(0)]) && UniqueLabels(np) && c.pc == q
    ensures Reach(np, o, c, q + 1, h) == Some(e) && e == c.(pc := q + 1, used := c.used + 1)
  {
    hide UniqueLabels, Find;
    var x := [Jcc(0), Label(0), Jmp(0)];
    assert np[q + 0] == x[0] && np[q + 1] == x[1];
    FindIs(np, 0, q + 1);
    e := c.(pc := q + 1, used := c.used + 1);
    h := 1;
  }

  lemma LoopFront(g: Gen, o: Oracle, f: nat, c: Config, kind: LoopKind, times: int, body: seq<nat>)
    returns (f': nat, c': Config)
    requires Valid(g) && AtFront(g, o, f, c)
    ensures AtFront(Apply(g, LoopBlock(kind, times, body)), o, f', c')
    ensures
      var t := OpTrace(LoopBlock(kind, times, body), o, c.used);
      c'.out == c.out + t.0 && c'.used == t.1
  {
    hide UniqueLabels, AtFront, Extends, Reach, Step, CodeAt, FreshLabels, OpTrace;
    var x := LoopCode(kind, times, body, g.labels);
    LoopCodeExtends(g, kind, times, body);
    FrontFacts(g, o, f, c);
    InsertValid(g, g.pos + 1, x, 2);
    EmittedCode(g.prog, g.pos + 1, x);
    hide InsertAt;
    var h, e := RunLoopCode(InsertAt(g.prog, g.pos + 1, x), g.pos + 1, kind, times, body, g.labels, o, c);
    f', c' := EmitArrives(g, o, f, c, x, |body| + 4, 2, h, e);
  }

  lemma CallFront(g: Gen, o: Oracle, f: nat, c: Config, body: seq<nat>) returns (f': nat, c': Config)
    requires Valid(g) && AtFront(g, o, f, c)
    ensures AtFront(Apply(g, CallBlock(body)), o, f', c')
    ensures c'.out == c.out + body && c'.used == c.used
  {
    hide UniqueLabels, AtFront, Extends, Reach, Step, CodeAt, FreshLabels;
    var x := CallCode(body, g.labels);
    CallCodeExtends(g, body);
    FrontFacts(g, o, f, c);
    InsertValid(g, g.pos + 1, x, 3);
    EmittedCode(g.prog, g.pos + 1, x);
    hide InsertAt;
    var h, e := RunCallCode(InsertAt(g.prog, g.pos + 1, x), g.pos + 1, body, g.labels, o, c);
    f', c' := EmitArrives(g, o, f, c, x, |body| + 6, 3, h, e);
  }

  // The invariant step: a run that has arrived at the insert position with trace c.out arrives at the new
  // insert position with exactly the operation's own trace added.
  lemma ApplyFront(g: Gen, op: Op, o: Oracle, f: nat, c: Config) returns (f': nat, c': Config)
    requires Valid(g) && AtFront(g, o, f, c)
    ensures AtFront(Apply(g, op), o, f', c')
    ensures c'.out == c.out + OpTrace(op, o, c.used).0 && c'.used == OpTrace(op, o, c.used).1
  {
    hide UniqueLabels, Branches, Find, Extends, AtFront, InsertAt;
    assert c.out + [] == c.out;
    var n := g.labels;
    match op {
      case Straight(id) =>
        ShortExtends(g, [Plain(id)]);
        f', c' := FirstEntry(g, o, f, c, [Plain(id)], 0);
      case RandomLabel =>
        ShortExtends(g, [Label(n)]);
        f', c' := FirstEntry(g, o, f, c, [Label(n)], 1);
      case Jump(choice) =>
        if n == 0 {
          ShortExtends(g, [Label(0), Jmp(0)]);
          f', c' := FirstEntry(g, o, f, c, [Label(0), Jmp(0)], 1);
        } else {
          HasEntry(g);
          f', c' := PadFront(g, o, f, c, [Jmp(n)], choice % n);
        }
      case CondJump(choice) =>
        if n == 0 {
          f', c' := FirstCondJump(g, o, f, c);
        } else {
          HasEntry(g);
          f', c' := PadFront(g, o, f, c, [Jcc(n), Jmp(n)], choice % n);
        }
      case LoopBlock(kind, times, body) =>
        f', c' := LoopFront(g, o, f, c, kind, times, body);
      case CallBlock(body) =>
        f', c' := CallFront(g, o, f, c, body);
    }
  }

  lemma HasEntry(g: Gen)
    requires Valid(g) && g.labels > 0
    ensures g.pos >= 0
  {
    assert Has(g.prog, 0);
  }

  // ---- The finished program ----

  function Build(ops: seq<Op>): (g: Gen)
    ensures -1 <= g.pos < |g.prog|
  {
    if ops == [] then EMPTY else Apply(Build(ops[..|ops| - 1]), ops[|ops| - 1])
  }

  // Every reachable list is well formed.
  lemma {:induction false} BuildValid(ops: seq<Op>)
    ensures Valid(Build(ops))
  {
    hide Valid, Apply;
    if ops == [] {
      EmptyValid();
    } else {
      BuildValid(ops[..|ops| - 1]);
      ApplyValid(Build(ops[..|ops| - 1]), ops[|ops| - 1]);
    }
  }

  lemma EmptyValid()
    ensures Valid(EMPTY)
  {
  }

  lemma {:induction false} BuildFront(ops: seq<Op>, o: Oracle) returns (f: nat, c: Config)
    ensures AtFront(Build(ops), o, f, c) && c.out == Trace(ops, o).0 && c.used == Trace(ops, o).1
  {
    hide AtFront, OpTrace, Apply, Valid;
    if ops == [] {
      EmptyFront(o);
      f, c := 0, START;
    } else {
      var init := ops[..|ops| - 1];
      BuildValid(init);
      f, c := BuildFront(init, o);
      f, c := ApplyFront(Build(init), ops[|ops| - 1], o, f, c);
    }
  }

  lemma EmptyFront(o: Oracle)
    ensures AtFront(EMPTY, o, 0, START)
  {
  }

  // Appending the tail label changes no run inside the program.
  lemma {:induction false} AppendReach(prog: seq<Insn>, m: nat, o: Oracle, c: Config, p: nat, f: nat, stop: nat, g: nat,
                                       last: Config)
    requires UniqueLabels(prog) && !Has(prog, m) && Reach(prog, o, c, p, f).Some? && p < |prog| <= stop
    requires Reach(prog + [Label(m)], o, Reach(prog, o, c, p, f).value, stop, g) == Some(last)
    ensures Reach(prog + [Label(m)], o, c, stop, f + g) == Some(last)
    decreases f
  {
    hide UniqueLabels, Step, Find, SameEntry;
    var np := prog + [Label(m)];
    if c.pc == p {
      MoreFuel(np, o, c, stop, g, f + g);
    } else {
      StepInside(prog, o, c);
      var d := Step(prog, o, c).value;
      AppendStep(prog, m, o, c);
      AppendReach(prog, m, o, d, p, f - 1, stop, g, last);
    }
  }

  lemma AppendStep(prog: seq<Insn>, m: nat, o: Oracle, c: Config)
    requires UniqueLabels(prog) && !Has(prog, m) && c.pc < |prog| && Step(prog, o, c).Some?
    ensures Step(prog + [Label(m)], o, c) == Step(prog, o, c)
  {
    hide UniqueLabels, Step, Find;
    var np := prog + [Label(m)];
    assert np == InsertAt(prog, |prog|, [Label(m)]);
    SingleFresh(prog, m);
    InsertSameEntry(prog, |prog|, [Label(m)], c.pc);
    TargetInside(prog, c.pc);
    assert SameEntry(prog, np, 0, 0, c.pc);
    SpliceStep(prog, np, 0, 0, o, c);
    assert forall d: Config :: ShiftConfig(0, 0, d).stack == d.stack;
  }

  lemma SingleFresh(prog: seq<Insn>, m: nat)
    requires !Has(prog, m)
    ensures FreshLabels(prog, [Label(m)]) && FreshLabels(prog, [Jmp(m)])
  {
  }

  lemma TargetInside(prog: seq<Insn>, pc: nat)
    requires pc < |prog|
    ensures Branches(prog[pc]) ==> Find(prog, prog[pc].n) <= |prog|
  {
  }

  // For every sequence of steps and every outcome of the conditional jumps the finished program arrives at
  // its last entry, the tail label, with an empty return stack, and has executed what the steps asked for.
  lemma WholeRun(ops: seq<Op>, o: Oracle) returns (f: nat, c: Config)
    ensures
      var g := Finish(Build(ops));
      && g.pos == |g.prog| - 1 && g.prog[g.pos] == Label(g.labels - 1)
      && Reach(g.prog, o, START, g.pos, f) == Some(c)
      && c.stack == [] && c.out == Trace(ops, o).0
  {
    hide UniqueLabels, AtFront, Reach, Step, Find;
    var g := Build(ops);
    BuildValid(ops);
    FinishValid(g);
    var f0, c0 := BuildFront(ops, o);
    FrontFacts(g, o, f0, c0);
    c := LastJump(g, o, c0);
    f := FinishRun(g, o, f0, c0, c);
  }

  // From the front of the unfinished program the closing jump leads to the closing label.
  lemma LastJump(g: Gen, o: Oracle, c0: Config) returns (c: Config)
    requires Valid(g) && c0.pc == g.pos + 1
    ensures
      var p2 := Finish(g).prog;
      p2 != [] && c == c0.(pc := |p2| - 1) && Reach(p2, o, c0, |p2| - 1, 1) == Some(c)
  {
    hide UniqueLabels, Reach, Step;
    var m := g.labels;
    assert !Has(g.prog, m);
    var p1 := InsertAt(g.prog, g.pos + 1, [Jmp(m)]);
    var stop := |p1|;
    JumpUnique(g.prog, g.pos + 1, m);
    c := c0.(pc := stop);
    FindIs(p1 + [Label(m)], m, stop);
    JumpStep(p1 + [Label(m)], o, c0, m);
    ReachHere(p1 + [Label(m)], o, c);
    ReachStep(p1 + [Label(m)], o, c0, c, stop, 0);
  }

  lemma FinishRun(g: Gen, o: Oracle, f0: nat, c0: Config, c: Config) returns (f: nat)
    requires Valid(g) && AtFront(g, o, f0, c0)
    requires
      var p2 := Finish(g).prog;
      Reach(p2, o, c0, |p2| - 1, 1) == Some(c)
    ensures
      var p2 := Finish(g).prog;
      Reach(p2, o, START, |p2| - 1, f) == Some(c)
  {
    hide UniqueLabels, Find, Step, Reach;
    var m := g.labels;
    assert !Has(g.prog, m);
    var p1, p2 := InsertAt(g.prog, g.pos + 1, [Jmp(m)]), Finish(g).prog;
    if g.pos < 0 {
      return 1;
    }
    JumpUnique(g.prog, g.pos + 1, m);
    ReachPc(g.prog, o, START, g.pos, f0);
    var d := Reach(g.prog, o, START, g.pos, f0).value;
    assert ShiftConfig(g.pos + 1, 1, d) == d && ShiftConfig(g.pos + 1, 1, START) == START;
    ReachHere(p1, o, d);
    SingleFresh(g.prog, m);
    SpliceReach(g.prog, g.pos, [Jmp(m)], o, START, f0, g.pos, 0);
    SameFall(g.prog, p2, o, d);
    ReachStep(p2, o, d, c0, |p2| - 1, 1);
    AppendReach(p1, m, o, START, g.pos, f0, |p2| - 1, 2, c);
    f := f0 + 2;
  }

  // ---- The same run for every outcome ----

  // The straight-line lines in generation order, loop bodies as often as their counter says.
  function Written(ops: seq<Op>): seq<nat> {
    if ops == [] then []
    else
      Written(ops[..|ops| - 1]) +
      match ops[|ops| - 1]
      case Straight(id) => [id]
      case LoopBlock(_, times, body) => Repeat(body, LoopTimes(times))
      case CallBlock(body) => body
      case _ => []
  }

  predicate CountedLoops(ops: seq<Op>) {
    forall i :: 0 <= i < |ops| && ops[i].LoopBlock? ==> ops[i].kind.LoopEcx?
  }

  // Without flag-testing loops the run executes the lines in generation order whatever the choices and
  // whatever way the conditional jumps go.
  lemma {:induction false} TraceInOrder(ops: seq<Op>, o: Oracle)
    requires CountedLoops(ops)
    ensures Trace(ops, o).0 == Written(ops)
  {
    if ops != [] {
      var init, op := ops[..|ops| - 1], ops[|ops| - 1];
      assert forall i :: 0 <= i < |init| ==> init[i] == ops[i];
      TraceInOrder(init, o);
      assert Written(init) + [] == Written(init);
    }
  }

  lemma GenerationOrder(ops: seq<Op>, o: Oracle) returns (f: nat, c: Config)
    requires CountedLoops(ops)
    ensures
      var g := Finish(Build(ops));
      && g.pos == |g.prog| - 1 && g.prog[g.pos] == Label(g.labels - 1)
      && Reach(g.prog, o, START, g.pos, f) == Some(c)
      && c.stack == [] && c.out == Written(ops)
  {
    hide Reach, Build, Finish, Written, Trace;
    f, c := WholeRun(ops, o);
    TraceInOrder(ops, o);
  }
}
