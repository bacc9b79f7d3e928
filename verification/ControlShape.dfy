// What every step leaves in the text.

module ControlShape {
  import opened ControlProgram
  import opened ControlSplice
  import opened ControlSpec
  import opened ControlValid
  import opened ControlRun
  import ControlGen

  // The text with x behind the insert position.
  predicate PutBehind(g: Gen, x: seq<Insn>, text: seq<Insn>) {
    -1 <= g.pos < |g.prog| && text == g.prog[..g.pos + 1] + x + g.prog[g.pos + 1..]
  }

  lemma StraightShape(g: Gen, id: nat)
    requires Valid(g)
    ensures
      var r := Apply(g, Straight(id));
      PutBehind(g, [Plain(id)], r.prog) && r.pos == g.pos + 1 && r.labels == g.labels
  {
  }

  lemma RandomLabelShape(g: Gen)
    requires Valid(g)
    ensures
      var r := Apply(g, RandomLabel);
      PutBehind(g, [Label(g.labels)], r.prog) && r.pos == g.pos + 1 && r.labels == g.labels + 1
  {
  }

  // The first jump goes to a label in front of it.
  lemma FirstJumpShape(g: Gen, choice: nat)
    requires Valid(g) && g.labels == 0
    ensures
      var r := Apply(g, Jump(choice));
      PutBehind(g, [Label(0), Jmp(0)], r.prog) && r.pos == g.pos + 1 && r.labels == 1
    ensures
      var r := Apply(g, CondJump(choice));
      PutBehind(g, [Jcc(0), Label(0), Jmp(0)], r.prog) && r.pos == g.pos + 2 && r.labels == 1
  {
  }

  // The entries at q and q + 1 jump over the new label m in front of label k; without them the text is as given.
  predicate PadAt(text: seq<Insn>, q: nat, k: nat, m: nat, without: seq<Insn>) {
    && q + 2 < |text| && text[q] == Jmp(k) && text[q + 1] == Label(m) && text[q + 2] == Label(k)
    && without == text[..q] + text[q + 2..]
  }

  // A later jump goes to a new label in front of the chosen one, and code goes on behind the new label.
  lemma JumpShape(g: Gen, choice: nat) returns (without: seq<Insn>)
    requires Valid(g) && g.labels > 0
    ensures
      var r := Apply(g, Jump(choice));
      && PutBehind(g, [Jmp(g.labels)], without) && |r.prog| == |g.prog| + 3 && r.labels == g.labels + 1
      && 1 <= r.pos && PadAt(r.prog, r.pos - 1, choice % g.labels, g.labels, without)
  {
    without := InsertAt(g.prog, g.pos + 1, [Jmp(g.labels)]);
    BranchShape(g, [Jmp(g.labels)], choice % g.labels);
  }

  lemma CondJumpShape(g: Gen, choice: nat) returns (without: seq<Insn>)
    requires Valid(g) && g.labels > 0
    ensures
      var r := Apply(g, CondJump(choice));
      && PutBehind(g, [Jcc(g.labels), Jmp(g.labels)], without) && |r.prog| == |g.prog| + 4
      && r.labels == g.labels + 1
      && 1 <= r.pos && PadAt(r.prog, r.pos - 1, choice % g.labels, g.labels, without)
  {
    without := InsertAt(g.prog, g.pos + 1, [Jcc(g.labels), Jmp(g.labels)]);
    BranchShape(g, [Jcc(g.labels), Jmp(g.labels)], choice % g.labels);
  }

  lemma BranchShape(g: Gen, x: seq<Insn>, k: nat)
    requires Valid(g) && BranchCode(x, g.labels) && k < g.labels
    ensures
      var r, p := EmitPad(Emit(g, x, |x|, 0), k), InsertAt(g.prog, g.pos + 1, x);
      && |r.prog| == |g.prog| + |x| + 2 && r.labels == g.labels + 1
      && 1 <= r.pos && PadAt(r.prog, r.pos - 1, k, g.labels, p)
  {
    hide UniqueLabels, Find, InsertAt, TargetsBelow, FreshLabels, FallsThrough;
    assert Has(g.prog, k) && !Has(g.prog, g.labels);
    InsertBranch(g.prog, g.pos + 1, x, k, g.labels);
    var p := InsertAt(g.prog, g.pos + 1, x);
    PadParts(p, Find(p, k), Pad(k, g.labels));
  }

  lemma PadParts(p: seq<Insn>, q: nat, x: seq<Insn>)
    requires q < |p| && |x| == 2
    ensures
      var r := InsertAt(p, q, x);
      q + 2 < |r| && r[q] == x[0] && r[q + 1] == x[1] && r[q + 2] == p[q] && p == r[..q] + r[q + 2..]
  {
  }

  // A loop counts its rounds in ecx behind its head label, and its end label is behind the loop instruction.
  lemma LoopShape(g: Gen, kind: LoopKind, times: int, body: seq<nat>)
    requires Valid(g)
    ensures
      var r, n := Apply(g, LoopBlock(kind, times, body)), |body|;
      && |r.prog| == |g.prog| + n + 4 && r.labels == g.labels + 2 && r.pos == g.pos + n + 4
      && r.prog[..g.pos + 1] == g.prog[..g.pos + 1] && r.prog[r.pos + 1..] == g.prog[g.pos + 1..]
      && r.prog[g.pos + 1] == MovEcx(times) && r.prog[g.pos + 2] == Label(g.labels + 1)
      && (forall i :: 0 <= i < n ==> r.prog[g.pos + 3 + i] == Plain(body[i]))
      && r.prog[r.pos - 1] == Loop(kind, g.labels + 1) && r.prog[r.pos] == Label(g.labels)
  {
    hide UniqueLabels, InsertAt, TargetsBelow, FallsThrough;
    var x := LoopCode(kind, times, body, g.labels);
    BlockParts(g, x);
    LoopParts(kind, times, body, g.labels);
    assert forall i {:trigger body[i]} :: 0 <= i < |body| ==> x[2 + i] == Plain(body[i]);
  }

  lemma LoopParts(kind: LoopKind, times: int, body: seq<nat>, m: nat)
    ensures
      var x, n := LoopCode(kind, times, body, m), |body|;
      && |x| == n + 4 && x[0] == MovEcx(times) && x[1] == Label(m + 1)
      && (forall i {:trigger body[i]} :: 0 <= i < n ==> x[2 + i] == Plain(body[i]))
      && x[n + 2] == Loop(kind, m + 1) && x[n + 3] == Label(m)
  {
  }

  // A call jumps over its body, which returns, and goes on behind the call.
  lemma CallShape(g: Gen, body: seq<nat>)
    requires Valid(g)
    ensures
      var r, n, m := Apply(g, CallBlock(body)), |body|, g.labels;
      && |r.prog| == |g.prog| + n + 6 && r.labels == m + 3 && r.pos == g.pos + n + 6
      && r.prog[..g.pos + 1] == g.prog[..g.pos + 1] && r.prog[r.pos + 1..] == g.prog[g.pos + 1..]
      && r.prog[g.pos + 1] == Jmp(m + 1) && r.prog[g.pos + 2] == Label(m)
      && (forall i :: 0 <= i < n ==> r.prog[g.pos + 3 + i] == Plain(body[i]))
      && r.prog[r.pos - 3] == Ret && r.prog[r.pos - 2] == Label(m + 1) && r.prog[r.pos - 1] == Call(m)
      && r.prog[r.pos] == Label(m + 2)
  {
    hide UniqueLabels, InsertAt, TargetsBelow, FallsThrough;
    var x := CallCode(body, g.labels);
    BlockParts(g, x);
    CallParts(body, g.labels);
    assert forall i {:trigger body[i]} :: 0 <= i < |body| ==> x[2 + i] == Plain(body[i]);
  }

  lemma CallParts(body: seq<nat>, m: nat)
    ensures
      var x, n := CallCode(body, m), |body|;
      && |x| == n + 6 && x[0] == Jmp(m + 1) && x[1] == Label(m)
      && (forall i {:trigger body[i]} :: 0 <= i < n ==> x[2 + i] == Plain(body[i]))
      && x[n + 2] == Ret && x[n + 3] == Label(m + 1) && x[n + 4] == Call(m) && x[n + 5] == Label(m + 2)
  {
  }

  lemma BlockParts(g: Gen, x: seq<Insn>)
    requires -1 <= g.pos < |g.prog|
    ensures
      var p := InsertAt(g.prog, g.pos + 1, x);
      && p[..g.pos + 1] == g.prog[..g.pos + 1] && p[g.pos + 1 + |x|..] == g.prog[g.pos + 1..]
      && forall i {:trigger x[i]} :: 0 <= i < |x| ==> p[g.pos + 1 + i] == x[i]
  {
  }

  // The end: a jump behind the insert position to the label at the very end.
  lemma FinishShape(g: Gen) returns (text: seq<Insn>)
    requires Valid(g)
    ensures PutBehind(g, [Jmp(g.labels)], text)
    ensures Finish(g).prog == text + [Label(g.labels)] && Finish(g).labels == g.labels + 1
  {
    text := InsertAt(g.prog, g.pos + 1, [Jmp(g.labels)]);
  }

  // What gen_control_transfer_insn returns for a later jump is the label that the jump in front of it goes to.
  lemma ResultIsTarget(g: Gen, choice: nat)
    requires Valid(g) && g.labels > 0
    ensures
      var r, target := Apply(g, Jump(choice)), ControlGen.TransferResult(g.labels, false, ControlGen.JMP, choice);
      0 < r.pos <= |r.prog| - 2 && target >= 0 && r.prog[r.pos - 1] == Jmp(target) && r.prog[r.pos + 1] == Label(target)
    ensures
      var r, target := Apply(g, CondJump(choice)), ControlGen.TransferResult(g.labels, false, ControlGen.JCC, choice);
      0 < r.pos <= |r.prog| - 2 && target >= 0 && r.prog[r.pos - 1] == Jmp(target) && r.prog[r.pos + 1] == Label(target)
  {
    hide Apply;
    var p := JumpShape(g, choice);
    var q := CondJumpShape(g, choice);
  }

  // ---- The lines that a run executes ----

  // n times s, element by element.
  lemma {:induction false} RepeatAt(s: seq<nat>, n: nat, i: nat, j: nat)
    requires i < n && j < |s|
    ensures 0 <= i * |s| + j < |Repeat(s, n)| && Repeat(s, n)[i * |s| + j] == s[j]
  {
    if i > 0 {
      RepeatAt(s, n - 1, i - 1, j);
      assert i * |s| + j == |s| + ((i - 1) * |s| + j);
    }
  }

  function Ids(ops: seq<Op>): seq<nat>
    requires forall i :: 0 <= i < |ops| ==> ops[i].Straight?
  {
    seq(|ops|, i requires 0 <= i < |ops| => ops[i].id)
  }

  // Straight-line lines are executed as they are.
  lemma {:induction false} WrittenStraight(ops: seq<Op>)
    requires forall i :: 0 <= i < |ops| ==> ops[i].Straight?
    ensures Written(ops) == Ids(ops)
  {
    if ops != [] {
      WrittenStraight(ops[..|ops| - 1]);
    }
  }

  lemma WrittenNext(ops: seq<Op>, op: Op)
    ensures
      Written(ops + [op]) ==
      Written(ops) +
      match op
      case Straight(id) => [id]
      case LoopBlock(_, times, body) => Repeat(body, LoopTimes(times))
      case CallBlock(body) => body
      case _ => []
  {
    assert (ops + [op])[..|ops|] == ops;
  }

  // What one session after another has executed is what both have.
  lemma {:induction false} WrittenAppend(a: seq<Op>, b: seq<Op>)
    ensures Written(a + b) == Written(a) + Written(b)
    decreases |b|
  {
    hide Written;
    if b == [] {
      assert a + b == a;
      WrittenNothing();
    } else {
      var c, op := b[..|b| - 1], b[|b| - 1];
      assert a + b == (a + c) + [op] && b == c + [op];
      WrittenNext(a + c, op);
      WrittenNext(c, op);
      WrittenAppend(a, c);
    }
  }

  lemma WrittenNothing()
    ensures Written([]) == []
  {
  }

  // A loop executes its body as often as its count says: line i * |body| + j of its part is line j of the body.
  lemma WrittenLoop(kind: LoopKind, times: int, body: seq<nat>, i: nat, j: nat)
    requires 0 < times <= 0x1_0000_0000 && i < times && j < |body|
    ensures |Written([LoopBlock(kind, times, body)])| == times * |body|
    ensures
      0 <= i * |body| + j < |Written([LoopBlock(kind, times, body)])|
      && Written([LoopBlock(kind, times, body)])[i * |body| + j] == body[j]
  {
    OneBlock(kind, times, body);
    hide Written, Repeat;
    RepeatAt(body, times, i, j);
  }

  // And a call executes its body once.
  lemma WrittenCall(body: seq<nat>)
    ensures Written([CallBlock(body)]) == body
  {
    WrittenNext([], CallBlock(body));
    assert [] + [CallBlock(body)] == [CallBlock(body)];
  }

  lemma OneBlock(kind: LoopKind, times: int, body: seq<nat>)
    requires 0 < times <= 0x1_0000_0000
    ensures Written([LoopBlock(kind, times, body)]) == Repeat(body, times)
  {
    var op := LoopBlock(kind, times, body);
    hide Repeat;
    WrittenNext([], op);
    assert [] + [op] == [op];
  }

  // ---- How many entries of each kind a whole session leaves ----

  datatype Kind = PLAIN | LABEL | JMP | JCC | MOV | LOOP | CALL | RET

  function KindOf(i: Insn): Kind {
    match i
    case Plain(_) => PLAIN
    case Label(_) => LABEL
    case Jmp(_) => JMP
    case Jcc(_) => JCC
    case MovEcx(_) => MOV
    case Loop(_, _) => LOOP
    case Call(_) => CALL
    case Ret => RET
  }

  function One(i: Insn, k: Kind): nat {
    if KindOf(i) == k then 1 else 0
  }

  function Count(p: seq<Insn>, k: Kind): nat {
    if p == [] then 0 else One(p[0], k) + Count(p[1..], k)
  }

  // What a step adds, given the number of labels before it.
  function Added(op: Op, labels: nat, k: Kind): nat {
    match op
    case Straight(_) => if k == PLAIN then 1 else 0
    case RandomLabel => if k == LABEL then 1 else 0
    case Jump(_) => if k == LABEL then 1 else if k == JMP then (if labels == 0 then 1 else 2) else 0
    case CondJump(_) =>
      if k == LABEL || k == JCC then 1 else if k == JMP then (if labels == 0 then 1 else 2) else 0
    case LoopBlock(_, _, body) =>
      if k == PLAIN then |body| else if k == LABEL then 2 else if k == MOV || k == LOOP then 1 else 0
    case CallBlock(body) =>
      if k == PLAIN then |body| else if k == LABEL then 3
      else if k == JMP || k == CALL || k == RET then 1 else 0
  }

  function AddedBy(ops: seq<Op>, k: Kind): nat {
    if ops == [] then 0
    else AddedBy(ops[..|ops| - 1], k) + Added(ops[|ops| - 1], AddedBy(ops[..|ops| - 1], LABEL), k)
  }

  lemma {:induction false} CountAppend(a: seq<Insn>, b: seq<Insn>, k: Kind)
    ensures Count(a + b, k) == Count(a, k) + Count(b, k)
  {
    hide One;
    if a == [] {
      assert a + b == b;
    } else {
      assert (a + b)[1..] == a[1..] + b;
      CountAppend(a[1..], b, k);
    }
  }

  lemma CountInsert(p: seq<Insn>, q: nat, x: seq<Insn>, k: Kind)
    requires q <= |p|
    ensures Count(InsertAt(p, q, x), k) == Count(p, k) + Count(x, k)
  {
    hide Count;
    CountAppend(p[..q], x, k);
    CountAppend(p[..q] + x, p[q..], k);
    CountAppend(p[..q], p[q..], k);
    assert p == p[..q] + p[q..];
  }

  lemma {:induction false} CountPlains(body: seq<nat>, k: Kind)
    ensures Count(Plains(body), k) == if k == PLAIN then |body| else 0
  {
    if body != [] {
      assert Plains(body)[1..] == Plains(body[1..]);
      CountPlains(body[1..], k);
    }
  }

  lemma CountOne(a: Insn, k: Kind)
    ensures Count([a], k) == One(a, k)
  {
    assert [a][1..] == [];
  }

  lemma CountTwo(a: Insn, b: Insn, k: Kind)
    ensures Count([a, b], k) == One(a, k) + One(b, k)
  {
    assert [a, b][1..] == [b];
    CountOne(b, k);
  }

  lemma CountThree(a: Insn, b: Insn, c: Insn, k: Kind)
    ensures Count([a, b, c], k) == One(a, k) + One(b, k) + One(c, k)
  {
    assert [a, b, c][1..] == [b, c];
    CountTwo(b, c, k);
  }

  lemma CountFour(a: Insn, b: Insn, c: Insn, d: Insn, k: Kind)
    ensures Count([a, b, c, d], k) == One(a, k) + One(b, k) + One(c, k) + One(d, k)
  {
    assert [a, b, c, d][1..] == [b, c, d];
    CountThree(b, c, d, k);
  }

  lemma StepCount(g: Gen, op: Op, k: Kind)
    requires Valid(g)
    ensures Count(Apply(g, op).prog, k) == Count(g.prog, k) + Added(op, g.labels, k)
    ensures Apply(g, op).labels == g.labels + Added(op, g.labels, LABEL)
  {
    hide Count, InsertAt, UniqueLabels, TargetsBelow, FallsThrough, EmitPad, LoopCode, CallCode;
    var q, m := g.pos + 1, g.labels;
    match op {
      case Straight(id) =>
        CountInsert(g.prog, q, [Plain(id)], k);
        CountOne(Plain(id), k);
      case RandomLabel =>
        CountInsert(g.prog, q, [Label(m)], k);
        CountOne(Label(m), k);
      case Jump(choice) =>
        if m > 0 {
          CountOne(Jmp(m), k);
          PadCount(g, [Jmp(m)], choice % m, k);
        } else {
          CountTwo(Label(0), Jmp(0), k);
          CountInsert(g.prog, q, [Label(0), Jmp(0)], k);
        }
      case CondJump(choice) =>
        if m > 0 {
          CountTwo(Jcc(m), Jmp(m), k);
          PadCount(g, [Jcc(m), Jmp(m)], choice % m, k);
        } else {
          CountThree(Jcc(0), Label(0), Jmp(0), k);
          CountInsert(g.prog, q, [Jcc(0), Label(0), Jmp(0)], k);
        }
      case LoopBlock(kind, times, body) =>
        CountInsert(g.prog, q, LoopCode(kind, times, body, m), k);
        LoopCount(kind, times, body, m, k);
      case CallBlock(body) =>
        CountInsert(g.prog, q, CallCode(body, m), k);
        CallCount(body, m, k);
    }
  }

  lemma LoopCount(kind: LoopKind, times: int, body: seq<nat>, m: nat, k: Kind)
    ensures Count(LoopCode(kind, times, body, m), k) == Added(LoopBlock(kind, times, body), m, k)
  {
    hide Count, Plains;
    var a, b := [MovEcx(times), Label(m + 1)], [Loop(kind, m + 1), Label(m)];
    CountTwo(MovEcx(times), Label(m + 1), k);
    CountTwo(Loop(kind, m + 1), Label(m), k);
    CountPlains(body, k);
    CountAppend(a, Plains(body), k);
    CountAppend(a + Plains(body), b, k);
  }

  lemma CallCount(body: seq<nat>, m: nat, k: Kind)
    ensures Count(CallCode(body, m), k) == Added(CallBlock(body), m, k)
  {
    hide Count, Plains;
    var a, b := [Jmp(m + 1), Label(m)], [Ret, Label(m + 1), Call(m), Label(m + 2)];
    CountTwo(Jmp(m + 1), Label(m), k);
    CountFour(Ret, Label(m + 1), Call(m), Label(m + 2), k);
    CountPlains(body, k);
    CountAppend(a, Plains(body), k);
    CountAppend(a + Plains(body), b, k);
  }

  lemma PadCount(g: Gen, x: seq<Insn>, n: nat, k: Kind)
    requires Valid(g)
    ensures
      Count(EmitPad(Emit(g, x, |x|, 0), n).prog, k) ==
      Count(g.prog, k) + Count(x, k) + if k == LABEL || k == JMP then 1 else 0
    ensures EmitPad(Emit(g, x, |x|, 0), n).labels == g.labels + 1
  {
    hide Count, InsertAt, UniqueLabels, TargetsBelow, FallsThrough, Find;
    var p := InsertAt(g.prog, g.pos + 1, x);
    CountInsert(g.prog, g.pos + 1, x, k);
    CountInsert(p, Find(p, n), Pad(n, g.labels), k);
    CountTwo(Jmp(n), Label(g.labels), k);
  }

  // Main result: every session leaves as many entries of every kind as its steps say.
  lemma {:induction false} SessionCount(ops: seq<Op>, k: Kind)
    ensures Count(Build(ops).prog, k) == AddedBy(ops, k) && Build(ops).labels == AddedBy(ops, LABEL)
    ensures Count(Finish(Build(ops)).prog, k) == AddedBy(ops, k) + if k == LABEL || k == JMP then 1 else 0
  {
    hide Count, Apply, Added, Valid, Finish;
    if ops != [] {
      var init := ops[..|ops| - 1];
      SessionCount(init, k);
      BuildValid(init);
      StepCount(Build(init), ops[|ops| - 1], k);
    } else {
      CountNothing(k);
    }
    BuildValid(ops);
    FinishCount(Build(ops), k);
  }

  lemma CountNothing(k: Kind)
    ensures Count(EMPTY.prog, k) == 0
  {
  }

  lemma FinishCount(g: Gen, k: Kind)
    requires Valid(g)
    ensures Count(Finish(g).prog, k) == Count(g.prog, k) + if k == LABEL || k == JMP then 1 else 0
  {
    hide Count, InsertAt, UniqueLabels, TargetsBelow, FallsThrough;
    var p := InsertAt(g.prog, g.pos + 1, [Jmp(g.labels)]);
    CountInsert(g.prog, g.pos + 1, [Jmp(g.labels)], k);
    CountOne(Jmp(g.labels), k);
    CountOne(Label(g.labels), k);
    CountAppend(p, [Label(g.labels)], k);
  }
}
