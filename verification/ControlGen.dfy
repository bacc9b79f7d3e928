// The control-flow generator itself.

module ControlGen {
  import opened ControlProgram
  import opened ControlSplice
  import opened ControlSpec
  import opened ControlValid
  import opened ControlRun
  import opened InsnList

  datatype Position = InsertAfter | InsertBefore | InsertTail

  // What the generator tells apart among opcodes.
  datatype Opcode = JMP | JCC | LOOP(kind: LoopKind) | CALL | OTHER

  // Index at which a new entry lands in a list of n entries with the insert position at p.
  function PlaceIndex(n: nat, p: int, where: Position): (k: nat)
    requires -1 <= p < n || (p == -1 && n == 0)
    ensures k <= n
  {
    match where
    case InsertAfter => p + 1
    case InsertBefore => if p < 0 then 0 else p
    case InsertTail => n
  }

  // One entry placed relative to the insert position, which moves onto it.
  function Placed(g: Gen, where: Position, i: Insn): (r: Gen)
    requires -1 <= g.pos < |g.prog|
    ensures 0 <= r.pos < |r.prog| && r.prog[r.pos] == i
  {
    var k := PlaceIndex(|g.prog|, g.pos, where);
    Gen(InsertAt(g.prog, k, [i]), k, if i.Label? then g.labels + 1 else g.labels)
  }

  // Labels are numbered below `labels`, each defined once; branch targets may be still to come.
  ghost predicate LabelsOk(g: Gen) {
    && -1 <= g.pos < |g.prog| && (g.pos == -1 ==> g.prog == [])
    && UniqueLabels(g.prog)
    && (forall k: nat :: Has(g.prog, k) <==> k < g.labels)
  }

  lemma PlacedOk(g: Gen, pos: Position, i: Insn)
    requires LabelsOk(g) && (i.Label? ==> i.n == g.labels)
    ensures LabelsOk(Placed(g, pos, i))
  {
    hide UniqueLabels;
    var r := Placed(g, pos, i);
    assert i.Label? ==> !Has(g.prog, i.n) && i == Label(i.n);
    PlacedUnique(g.prog, r.pos, i);
    forall k: nat ensures Has(r.prog, k) <==> k < r.labels {
      InsertHas(g.prog, r.pos, [i], Label(k));
      assert Has(g.prog, k) <==> k < g.labels;
    }
  }

  lemma PlacedUnique(prog: seq<Insn>, k: nat, i: Insn)
    requires k <= |prog| && UniqueLabels(prog) && (i.Label? ==> i !in prog)
    ensures UniqueLabels(InsertAt(prog, k, [i]))
  {
    InsertUnique(prog, k, [i]);
  }

  // The table holds the list entry of each label.
  predicate TableOk(table: seq<Entry>, n: nat, nodes: seq<Entry>) {
    |table| == n && forall k: nat :: k < n ==> table[k] in nodes && table[k].insn == Label(k)
  }

  lemma TableGrows(table: seq<Entry>, n: nat, nodes: seq<Entry>, more: seq<Entry>, e: Entry)
    requires TableOk(table, n, nodes) && (forall x :: x in nodes ==> x in more)
    ensures TableOk(table, n, more)
    ensures e in more && e.insn == Label(n) ==> TableOk(table + [e], n + 1, more)
  {
  }

  class Generator {
    var list: List
    var insertpos: Entry?
    var labeli: nat
    var labelspos: seq<Entry>
    var lockCtrl: bool
    var ecxLocked: bool
    ghost var pos: int

    ghost function State(): Gen
      reads `list, `labeli, `pos, list`nodes
    {
      Gen(Text(list.nodes), pos, labeli)
    }

    ghost predicate Valid()
      reads `list, `labeli, `pos, `insertpos, `labelspos, list, list.nodes
    {
      && list.Valid()
      && LabelsOk(State())
      && insertpos == At(list.nodes, pos)
      && TableOk(labelspos, labeli, list.nodes)
    }

    constructor ()
      ensures Valid() && State() == EMPTY && !lockCtrl && fresh(list) && list.nodes == []
    {
      list := new List();
      insertpos, labeli, labelspos, lockCtrl, ecxLocked, pos := null, 0, [], false, false, -1;
    }

    // stat_insert_insn
    method InsertEntry(i: Insn, where: Position)
      requires list.Valid() && insertpos == At(list.nodes, pos)
      requires -1 <= pos < |list.nodes| && (pos == -1 ==> list.nodes == [])
      modifies this`insertpos, this`pos, list, list.nodes
      ensures list.Valid() && pos == PlaceIndex(|old(list.nodes)|, old(pos), where)
      ensures insertpos != null && fresh(insertpos) && insertpos.insn == i
      ensures list.nodes == InsertAt(old(list.nodes), pos, [insertpos as Entry])
    {
      hide List.Valid, InsertAt;
      ghost var n := |list.nodes|;
      match where {
        case InsertAfter => insertpos := list.InsertAfter(insertpos, i, pos);
        case InsertBefore => insertpos := list.InsertBefore(insertpos, i, if pos < 0 then 0 else pos);
        case InsertTail => insertpos := list.InsertTail(i);
      }
      pos := PlaceIndex(n, pos, where);
    }

    // What a placement means for the abstract state and for the label table.
    lemma Adopted(was: seq<Entry>, g: Gen, where: Position, e: Entry)
      requires list.Valid() && LabelsOk(g) && g.prog == Text(was)
      requires e.insn.Label? ==> e.insn.n == g.labels
      requires pos == PlaceIndex(|was|, g.pos, where) && list.nodes == InsertAt(was, pos, [e])
      requires labeli == Placed(g, where, e.insn).labels
      ensures State() == Placed(g, where, e.insn) && LabelsOk(State())
      ensures e in list.nodes && At(list.nodes, pos) == e && forall n :: n in was ==> n in list.nodes
    {
      hide LabelsOk, List.Valid;
      TextInsert(was, pos, e);
      PlacedOk(g, where, e.insn);
      assert list.nodes[pos] == e;
      forall n | n in was ensures n in list.nodes {
        var k :| 0 <= k < |was| && was[k] == n;
        assert list.nodes[if k < pos then k else k + 1] == n;
      }
    }

    lemma PosOk()
      requires Valid()
      ensures -1 <= pos < |list.nodes| && (pos == -1 ==> list.nodes == [])
    {
      assert |State().prog| == |list.nodes|;
    }

    // one_insn_gen_ctrl, and the insertion of a generated instruction
    method Insert(i: Insn, where: Position)
      requires Valid() && !i.Label?
      modifies this`insertpos, this`pos, list, list.nodes
      ensures Valid() && fresh(set n | n in list.nodes && n !in old(list.nodes))
      ensures State() == Placed(old(State()), where, i)
    {
      hide LabelsOk, List.Valid, TableOk;
      ghost var g, was := State(), list.nodes;
      PosOk();
      InsertEntry(i, where);
      Adopted(was, g, where, insertpos);
      TableGrows(labelspos, labeli, was, list.nodes, insertpos);
    }

    // Defines the next label and enters it in the table; refused while control transfers are locked.
    method GenLabel(where: Position) returns (r: int)
      requires Valid()
      modifies this`insertpos, this`pos, this`labeli, this`labelspos, list, list.nodes
      ensures Valid() && fresh(set n | n in list.nodes && n !in old(list.nodes))
      ensures lockCtrl ==> r == -1 && State() == old(State()) && labeli == old(labeli)
      ensures !lockCtrl ==>
                r == old(labeli) && labeli == r + 1 && State() == Placed(old(State()), where, Label(old(labeli)))
    {
      hide LabelsOk, List.Valid, TableOk;
      if lockCtrl {
        return -1;
      }
      ghost var g, was := State(), list.nodes;
      PosOk();
      InsertEntry(Label(labeli), where);
      labeli := labeli + 1;
      Adopted(was, g, where, insertpos);
      TableGrows(labelspos, labeli - 1, was, list.nodes, insertpos);
      labelspos := labelspos + [insertpos];
      return labeli - 1;
    }

    method UpdateInsertPosToLabel(target: nat)
      requires Valid() && target < labeli
      modifies this`insertpos, this`pos
      ensures Valid()
      ensures Find(State().prog, target) < |State().prog| && State() == old(State()).(pos := Find(State().prog, target))
    {
      insertpos := labelspos[target];
      ghost var k :| 0 <= k < |list.nodes| && list.nodes[k] == insertpos;
      assert State().prog[k] == Label(target);
      FindIs(State().prog, target, k);
      pos := k;
    }

    // A jump to the label goes in front of it, then a new label behind the jump.
    method GenJmpToLabel(target: nat)
      requires Valid() && target < labeli && !lockCtrl
      modifies this`insertpos, this`pos, this`labeli, this`labelspos, list, list.nodes
      ensures Valid() && fresh(set n | n in list.nodes && n !in old(list.nodes))
      ensures State() == EmitPad(old(State()), target)
    {
      hide Valid, Find, State, InsertAt;
      Facts();
      ghost var g := State();
      UpdateInsertPosToLabel(target);
      Insert(Jmp(target), InsertBefore);
      var n := GenLabel(InsertAfter);
      PadText(g.prog, Find(g.prog, target), target, g.labels);
    }

    lemma Facts()
      requires Valid()
      ensures -1 <= State().pos < |State().prog| && UniqueLabels(State().prog)
      ensures State().labels == labeli && State().pos == pos
    {
    }

    // The choice among the existing labels; -1 when there are none.
    method SelectOneLabel(choice: nat) returns (r: int)
      ensures r == if labeli == 0 then -1 else choice % labeli
    {
      r := if labeli != 0 then choice % labeli else -1;
    }

    method EmitJump(choice: nat) returns (r: int)
      requires Valid() && !lockCtrl
      modifies this`insertpos, this`pos, this`labeli, this`labelspos, list, list.nodes
      ensures Valid() && fresh(set n | n in list.nodes && n !in old(list.nodes))
      ensures State() == Apply(old(State()), Jump(choice))
      ensures r == if old(labeli) == 0 then -1 else choice % old(labeli)
    {
      hide Find, UniqueLabels, Valid, State;
      Facts();
      ghost var g := State();
      Insert(Jmp(labeli), InsertAfter);
      var selected := SelectOneLabel(choice);
      r := ArriveAtLabel(selected, g, [Jmp(g.labels)]);
      BranchText(g, choice);
    }

    method EmitCondJump(choice: nat) returns (r: int)
      requires Valid() && !lockCtrl
      modifies this`insertpos, this`pos, this`labeli, this`labelspos, list, list.nodes
      ensures Valid() && fresh(set n | n in list.nodes && n !in old(list.nodes))
      ensures State() == Apply(old(State()), CondJump(choice))
      ensures r == if old(labeli) == 0 then -1 else choice % old(labeli)
    {
      hide Find, UniqueLabels, Valid, State, InsertAt, Apply;
      Facts();
      ghost var g := State();
      Insert(Jcc(labeli), InsertAfter);
      Insert(Jmp(labeli), InsertAfter);
      InsertBehind(g.prog, g.pos + 1, [Jcc(g.labels)], Jmp(g.labels), [Jcc(g.labels), Jmp(g.labels)]);
      var selected := SelectOneLabel(choice);
      r := ArriveAtLabel(selected, g, [Jcc(g.labels), Jmp(g.labels)]);
      BranchText(g, choice);
    }

    // A loop or call block is left open: the insert position is in its empty body and the lock is set.
    // The return value is -1 for a refused or unrelated opcode, and also for a jump emitted while no
    // label existed.
    method GenControlTransferInsn(opcode: Opcode, times: int, choice: nat) returns (r: int)
      requires Valid()
      modifies this, list, list.nodes
      ensures Valid() && list == old(list) && fresh(set n | n in list.nodes && n !in old(list.nodes))
      ensures -1 <= old(State()).pos < |old(State()).prog|
      ensures State() == Transferred(old(State()), old(lockCtrl), opcode, times, choice)
      ensures r == TransferResult(old(labeli), old(lockCtrl), opcode, choice)
      ensures lockCtrl == (old(lockCtrl) || opcode.LOOP? || opcode.CALL?)
      ensures ecxLocked == (old(ecxLocked) || (opcode.LOOP? && !old(lockCtrl)))
    {
      hide LabelsOk, TableOk, Find, UniqueLabels, Valid, State;
      Facts();
      if lockCtrl {
        return -1;
      }
      match opcode {
        case JMP =>
          r := EmitJump(choice);
        case JCC =>
          r := EmitCondJump(choice);
        case LOOP(kind) =>
          r := OpenLoop(kind, times);
          lockCtrl := true;
          ecxLocked := true;
        case CALL =>
          r := OpenCall();
          lockCtrl := true;
        case OTHER =>
          r := -1;
      }
    }

    // Makes the label the freshly inserted branch x goes to.
    method ArriveAtLabel(selected: int, ghost g: Gen, ghost x: seq<Insn>) returns (r: int)
      requires Valid() && !lockCtrl && BranchCode(x, g.labels) && -1 <= g.pos < |g.prog|
      requires State() == Emit(g, x, |x|, 0) && -1 <= selected < labeli && (selected == -1 <==> labeli == 0)
      modifies this`insertpos, this`pos, this`labeli, this`labelspos, list, list.nodes
      ensures Valid() && fresh(set n | n in list.nodes && n !in old(list.nodes)) && r == selected
      ensures selected >= 0 ==> State() == EmitPad(Emit(g, x, |x|, 0), selected)
      ensures selected == -1 ==> State() == Emit(g, InsertAt(x, |x| - 1, [Label(0)]), |x|, 1)
    {
      hide Find, UniqueLabels, Valid, State;
      if selected == -1 {
        var n := GenLabel(InsertBefore);
        InsertInside(g.prog, g.pos + 1, x, |x| - 1, [Label(0)]);
      } else {
        GenJmpToLabel(selected);
      }
      r := selected;
    }

    method OpenLoop(kind: LoopKind, times: int) returns (r: int)
      requires Valid() && !lockCtrl
      modifies this`insertpos, this`pos, this`labeli, this`labelspos, list, list.nodes
      ensures Valid() && fresh(set n | n in list.nodes && n !in old(list.nodes)) && r == old(labeli)
      ensures State() == Opened(old(State()), LoopBlock(kind, times, []))
    {
      hide Find, UniqueLabels, Valid, State, InsertAt;
      Facts();
      ghost var g := State();
      r := GenLabel(InsertAfter);
      Insert(Loop(kind, labeli), InsertBefore);
      Insert(MovEcx(times), InsertBefore);
      var n := GenLabel(InsertAfter);
      OpenLoopText(g.prog, g.pos + 1, g.labels, kind, times);
    }

    method OpenCall() returns (r: int)
      requires Valid() && !lockCtrl
      modifies this`insertpos, this`pos, this`labeli, this`labelspos, list, list.nodes
      ensures Valid() && fresh(set n | n in list.nodes && n !in old(list.nodes)) && r == old(labeli) + 2
      ensures State() == Opened(old(State()), CallBlock([]))
    {
      hide Find, UniqueLabels, Valid, State, InsertAt;
      Facts();
      ghost var g := State();
      var f := EmitCall();
      r := f + 2;
      OpenCallText(g.prog, g.pos + 1, g.labels);
      Facts();
      FindIs(State().prog, f, g.pos + 2);
      UpdateInsertPosToLabel(f);
    }

    method EmitCall() returns (f: int)
      requires Valid() && !lockCtrl
      modifies this`insertpos, this`pos, this`labeli, this`labelspos, list, list.nodes
      ensures Valid() && fresh(set n | n in list.nodes && n !in old(list.nodes))
      ensures f == old(labeli) && labeli == f + 3
      ensures
        var g := old(State());
        -1 <= g.pos < |g.prog| &&
        State() == Gen(InsertAt(g.prog, g.pos + 1, CallCode([], g.labels)), g.pos + 6, g.labels + 3)
    {
      hide Find, UniqueLabels, Valid, State, InsertAt;
      Facts();
      ghost var g := State();
      Insert(Jmp(labeli + 1), InsertAfter);
      f := GenLabel(InsertAfter);
      Insert(Ret, InsertAfter);
      var e := GenLabel(InsertAfter);
      Insert(Call(f), InsertAfter);
      var back := GenLabel(InsertAfter);
      OpenCallText(g.prog, g.pos + 1, g.labels);
    }

    // A complete loop or call block of straight-line lines: opened, filled, closed.  The lock on ecx stays.
    method WalkTransferBlock(opcode: Opcode, times: int, body: seq<nat>)
      requires Valid() && !lockCtrl && (opcode.LOOP? || opcode.CALL?)
      modifies this, list, list.nodes
      ensures Valid() && list == old(list) && fresh(set n | n in list.nodes && n !in old(list.nodes)) && !lockCtrl
      ensures State() == Apply(old(State()), BlockOp(opcode, times, body))
      ensures ecxLocked == (old(ecxLocked) || opcode.LOOP?)
    {
      hide Find, UniqueLabels, Valid, State, InsertAt, Apply, Opened;
      Facts();
      ghost var g := State();
      var nextLabel := GenControlTransferInsn(opcode, times, 0);
      for i := 0 to |body|
        invariant Valid() && list == old(list) && fresh(set n | n in list.nodes && n !in old(list.nodes))
        invariant State() == Opened(g, BlockOp(opcode, times, body[..i]))
        invariant ecxLocked == (old(ecxLocked) || opcode.LOOP?)
      {
        Insert(Plain(body[i]), InsertAfter);
        OpenedGrows(g, BlockOp(opcode, times, body[..i]), body[i]);
        assert body[..i] + [body[i]] == body[..i + 1];
      }
      assert body[..|body|] == body;
      CloseBlock(g, BlockOp(opcode, times, body), nextLabel);
      lockCtrl := false;
    }

    method CloseBlock(ghost g: Gen, ghost op: Op, nextLabel: int)
      requires Valid() && (op.LoopBlock? || op.CallBlock?) && -1 <= g.pos < |g.prog| && State() == Opened(g, op)
      requires nextLabel == if op.LoopBlock? then g.labels else g.labels + 2
      modifies this`insertpos, this`pos
      ensures Valid() && State() == Apply(g, op)
    {
      hide Find, UniqueLabels, Valid, State;
      Facts();
      ClosedText(g, op);
      FindIs(State().prog, nextLabel, Apply(g, op).pos);
      UpdateInsertPosToLabel(nextLabel);
    }

    // One complete step.
    method Perform(op: Op)
      requires Valid() && !lockCtrl
      modifies this, list, list.nodes
      ensures Valid() && list == old(list) && fresh(set n | n in list.nodes && n !in old(list.nodes)) && !lockCtrl
      ensures -1 <= old(State()).pos < |old(State()).prog| && State() == Apply(old(State()), op)
    {
      hide Find, UniqueLabels, Valid, State, InsertAt;
      Facts();
      match op {
        case Straight(id) => Insert(Plain(id), InsertAfter);
        case RandomLabel => var n := GenLabel(InsertAfter);
        case Jump(choice) => var n := GenControlTransferInsn(JMP, -1, choice);
        case CondJump(choice) => var n := GenControlTransferInsn(JCC, -1, choice);
        case LoopBlock(kind, times, body) => WalkTransferBlock(LOOP(kind), times, body);
        case CallBlock(body) => WalkTransferBlock(CALL, -1, body);
      }
    }

    // gen_control_transfer_finish.  The tail label is refused while control transfers are locked, as they
    // stay after a loop or call instruction that no block closes; the text is then left with a jump to
    // a label it does not define.
    method FinishProgram()
      requires Valid() && TargetsBelow(State().prog, labeli)
      modifies this`insertpos, this`pos, this`labeli, this`labelspos, list, list.nodes
      ensures Valid() && fresh(set n | n in list.nodes && n !in old(list.nodes))
      ensures -1 <= old(State()).pos < |old(State()).prog|
      ensures State() == Closed(old(State()), lockCtrl)
      ensures Assembles(State().prog) <==> !lockCtrl
    {
      hide UniqueLabels, Valid, State, InsertAt, TargetsBelow, Assembles, Closed, Placed;
      CloseFacts();
      Insert(Jmp(labeli), InsertAfter);
      var r := GenLabel(InsertTail);
    }

    lemma CloseFacts()
      requires Valid() && TargetsBelow(State().prog, labeli)
      ensures -1 <= State().pos < |State().prog| && State().labels == labeli
      ensures
        var p1 := Placed(State(), InsertAfter, Jmp(labeli));
        Closed(State(), lockCtrl) == if lockCtrl then p1 else Placed(p1, InsertTail, Label(labeli))
      ensures Assembles(Closed(State(), lockCtrl).prog) <==> !lockCtrl
    {
      FinishSteps(State(), lockCtrl);
      LockDecides(State(), lockCtrl);
    }

    method Output() returns (text: seq<Insn>)
      requires Valid()
      ensures text == State().prog
    {
      text := list.Walk();
    }
  }

  function BlockOp(opcode: Opcode, times: int, body: seq<nat>): (op: Op)
    requires opcode.LOOP? || opcode.CALL?
    ensures op.LoopBlock? || op.CallBlock?
  {
    if opcode.LOOP? then LoopBlock(opcode.kind, times, body) else CallBlock(body)
  }

  // ---- The closing jump ----

  // The assembler resolves every branch.
  ghost predicate Assembles(prog: seq<Insn>) {
    UniqueLabels(prog) && forall i :: 0 <= i < |prog| && Branches(prog[i]) ==> Has(prog, prog[i].n)
  }

  // While control transfers are locked the closing jump is emitted and its label refused.
  function Closed(g: Gen, locked: bool): Gen
    requires -1 <= g.pos < |g.prog|
  {
    if locked then Emit(g, [Jmp(g.labels)], 1, 0) else Finish(g)
  }

  lemma FinishSteps(g: Gen, locked: bool)
    requires -1 <= g.pos < |g.prog|
    ensures
      var p1 := Placed(g, InsertAfter, Jmp(g.labels));
      Closed(g, locked) == if locked then p1 else Placed(p1, InsertTail, Label(g.labels))
  {
    var p1 := Placed(g, InsertAfter, Jmp(g.labels));
    assert InsertAt(p1.prog, |p1.prog|, [Label(g.labels)]) == p1.prog + [Label(g.labels)];
  }

  // Whatever was generated before, the closed text assembles if and only if control transfers are not locked.
  lemma LockDecides(g: Gen, locked: bool)
    requires LabelsOk(g) && TargetsBelow(g.prog, g.labels)
    ensures Assembles(Closed(g, locked).prog) <==> !locked
    ensures FallsThroughAt(Closed(g, locked)) <==> !locked
  {
    hide UniqueLabels;
    var n := g.labels;
    var p1 := Placed(g, InsertAfter, Jmp(n));
    PlacedOk(g, InsertAfter, Jmp(n));
    FinishSteps(g, locked);
    assert p1.prog[g.pos + 1] == Jmp(n);
    if locked {
      assert Has(p1.prog, n) <==> n < p1.labels;
      assert Branches(p1.prog[g.pos + 1]);
    } else {
      var f := Placed(p1, InsertTail, Label(n));
      PlacedOk(p1, InsertTail, Label(n));
      assert f.prog == p1.prog + [Label(n)];
      InsertTargets(g.prog, g.pos + 1, [Jmp(n)], n + 1);
      InsertTargets(p1.prog, |p1.prog|, [Label(n)], n + 1);
      forall i | 0 <= i < |f.prog| && Branches(f.prog[i]) ensures Has(f.prog, f.prog[i].n) {
        assert Has(f.prog, f.prog[i].n) <==> f.prog[i].n < n + 1;
      }
    }
  }

  predicate FallsThroughAt(g: Gen) {
    0 <= g.pos < |g.prog| && FallsThrough(g.prog[g.pos])
  }

  // The same about every session, and about one that stops inside a loop or call block.
  lemma SessionAssembles(ops: seq<Op>, locked: bool)
    ensures Assembles(Closed(Build(ops), locked).prog) <==> !locked
    ensures Valid(Closed(Build(ops), locked)) <==> !locked
  {
    hide UniqueLabels, Build, Finish, Emit, FallsThrough, TargetsBelow;
    var g := Build(ops);
    BuildValid(ops);
    LockDecides(g, locked);
    if !locked {
      FinishValid(g);
    }
  }

  lemma UnclosedBlockIsLost(ops: seq<Op>, op: Op)
    requires op.LoopBlock? || op.CallBlock?
    ensures !Assembles(Closed(Opened(Build(ops), op), true).prog)
  {
    hide UniqueLabels, Apply, Opened, Closed, Assembles, Build, TargetsBelow, Find;
    var g := Build(ops);
    BuildValid(ops);
    ApplyValid(g, op);
    ClosedText(g, op);
    OpenedGrows(g, op, 0);
    LockDecides(Opened(g, op), true);
  }

  // ---- What gen_control_transfer_insn makes of the list, and what it returns ----

  ghost function Transferred(g: Gen, locked: bool, opcode: Opcode, times: int, choice: nat): Gen
    requires -1 <= g.pos < |g.prog|
  {
    if locked then g
    else
      match opcode
      case JMP => Apply(g, Jump(choice))
      case JCC => Apply(g, CondJump(choice))
      case LOOP(kind) => Opened(g, LoopBlock(kind, times, []))
      case CALL => Opened(g, CallBlock([]))
      case OTHER => g
  }

  function TransferResult(labels: nat, locked: bool, opcode: Opcode, choice: nat): int {
    if locked || opcode.OTHER? then -1
    else if opcode.LOOP? then labels
    else if opcode.CALL? then labels + 2
    else if labels == 0 then -1
    else choice % labels
  }

  // The result tells whether something was emitted, except for a jump while there is no label yet.
  lemma ResultTells(g: Gen, locked: bool, opcode: Opcode, times: int, choice: nat)
    requires Valid(g)
    ensures
      (TransferResult(g.labels, locked, opcode, choice) == -1 <==> Transferred(g, locked, opcode, times, choice) == g)
      <==> locked || g.labels > 0 || !(opcode.JMP? || opcode.JCC?)
    ensures Transferred(g, locked, opcode, times, choice) == g <==> locked || opcode.OTHER?
  {
    hide Find, InsertAt, UniqueLabels;
    assert Transferred(g, locked, opcode, times, choice) == g <==> locked || opcode.OTHER? by {
      if !locked && !opcode.OTHER? {
        assert Transferred(g, locked, opcode, times, choice).labels > g.labels;
      }
    }
  }

  lemma FirstJumpIsLost(choice: nat)
    ensures TransferResult(EMPTY.labels, false, JMP, choice) == -1
    ensures Transferred(EMPTY, false, JMP, -1, choice).prog == [Label(0), Jmp(0)]
  {
    assert InsertAt([], 0, [Label(0), Jmp(0)]) == [Label(0), Jmp(0)];
  }

  // The block with its body so far, the insert position behind the body.
  function Opened(g: Gen, op: Op): Gen
    requires -1 <= g.pos < |g.prog| && (op.LoopBlock? || op.CallBlock?)
  {
    var x := if op.LoopBlock? then LoopCode(op.kind, op.times, op.body, g.labels) else CallCode(op.body, g.labels);
    Gen(InsertAt(g.prog, g.pos + 1, x), g.pos + 2 + |op.body|, g.labels + if op.LoopBlock? then 2 else 3)
  }

  lemma OpenedGrows(g: Gen, op: Op, id: nat)
    requires -1 <= g.pos < |g.prog| && (op.LoopBlock? || op.CallBlock?)
    ensures 0 <= Opened(g, op).pos < |Opened(g, op).prog|
    ensures Placed(Opened(g, op), InsertAfter, Plain(id)) == Opened(g, op.(body := op.body + [id]))
  {
    hide InsertAt, Plains;
    var n, body := g.labels, op.body;
    if op.LoopBlock? {
      BlockGrows(g, [MovEcx(op.times), Label(n + 1)], body, [Loop(op.kind, n + 1), Label(n)], id);
    } else {
      BlockGrows(g, [Jmp(n + 1), Label(n)], body, [Ret, Label(n + 1), Call(n), Label(n + 2)], id);
    }
  }

  lemma BlockGrows(g: Gen, a: seq<Insn>, body: seq<nat>, b: seq<Insn>, id: nat)
    requires -1 <= g.pos < |g.prog|
    ensures InsertAt(InsertAt(g.prog, g.pos + 1, a + Plains(body) + b), g.pos + 1 + |a| + |body|, [Plain(id)])
         == InsertAt(g.prog, g.pos + 1, a + Plains(body + [id]) + b)
  {
    hide InsertAt, Plains;
    BodyGrows(a, body, b, id);
    InsertInside(g.prog, g.pos + 1, a + Plains(body) + b, |a| + |body|, [Plain(id)]);
  }

  lemma BodyGrows(a: seq<Insn>, body: seq<nat>, b: seq<Insn>, id: nat)
    ensures InsertAt(a + Plains(body) + b, |a| + |body|, [Plain(id)]) == a + Plains(body + [id]) + b
  {
    assert Plains(body + [id]) == Plains(body) + [Plain(id)];
  }

  lemma ClosedText(g: Gen, op: Op)
    requires -1 <= g.pos < |g.prog| && (op.LoopBlock? || op.CallBlock?)
    ensures
      var a := Apply(g, op);
      && a == Opened(g, op).(pos := a.pos) && 0 <= a.pos < |a.prog|
      && a.prog[a.pos] == Label(if op.LoopBlock? then g.labels else g.labels + 2)
  {
    var x := if op.LoopBlock? then LoopCode(op.kind, op.times, op.body, g.labels) else CallCode(op.body, g.labels);
    assert InsertAt(g.prog, g.pos + 1, x)[g.pos + |x|] == x[|x| - 1];
  }

  lemma InsertInside(s: seq<Insn>, q: nat, x: seq<Insn>, j: nat, y: seq<Insn>)
    requires q <= |s| && j <= |x|
    ensures InsertAt(InsertAt(s, q, x), q + j, y) == InsertAt(s, q, InsertAt(x, j, y))
  {
  }

  // How a branch x and the arrival at its label make up the complete step.
  ghost function Arrived(g: Gen, x: seq<Insn>, choice: nat): Gen
    requires -1 <= g.pos < |g.prog| && |x| > 0
  {
    if g.labels == 0 then Emit(g, InsertAt(x, |x| - 1, [Label(0)]), |x|, 1)
    else EmitPad(Emit(g, x, |x|, 0), choice % g.labels)
  }

  lemma BranchText(g: Gen, choice: nat)
    requires -1 <= g.pos < |g.prog|
    ensures Apply(g, Jump(choice)) == Arrived(g, [Jmp(g.labels)], choice)
    ensures Apply(g, CondJump(choice)) == Arrived(g, [Jcc(g.labels), Jmp(g.labels)], choice)
  {
    assert InsertAt([Jmp(0)], 0, [Label(0)]) == [Label(0), Jmp(0)];
    assert InsertAt([Jcc(0), Jmp(0)], 1, [Label(0)]) == [Jcc(0), Label(0), Jmp(0)];
  }

  lemma OpenLoopText(prog: seq<Insn>, q: nat, n: nat, kind: LoopKind, times: int)
    requires q <= |prog|
    ensures
      var s2 := InsertAt(InsertAt(prog, q, [Label(n)]), q, [Loop(kind, n + 1)]);
      InsertAt(InsertAt(s2, q, [MovEcx(times)]), q + 1, [Label(n + 1)])
        == InsertAt(prog, q, LoopCode(kind, times, [], n))
  {
    var x1, x2, x3 := [Label(n)], [Loop(kind, n + 1), Label(n)], [MovEcx(times), Loop(kind, n + 1), Label(n)];
    assert InsertAt(x1, 0, [Loop(kind, n + 1)]) == x2;
    assert InsertAt(x2, 0, [MovEcx(times)]) == x3;
    assert InsertAt(x3, 1, [Label(n + 1)]) == LoopCode(kind, times, [], n);
    InsertInside(prog, q, x1, 0, [Loop(kind, n + 1)]);
    InsertInside(prog, q, x2, 0, [MovEcx(times)]);
    InsertInside(prog, q, x3, 1, [Label(n + 1)]);
  }

  lemma InsertedAt(s: seq<Insn>, q: nat, x: seq<Insn>, j: nat)
    requires q <= |s| && j < |x|
    ensures InsertAt(s, q, x)[q + j] == x[j]
  {
  }

  // Appending behind an insertion that ends at the insert position.
  lemma InsertBehind(s: seq<Insn>, q: nat, x: seq<Insn>, i: Insn, y: seq<Insn>)
    requires q <= |s| && y == x + [i]
    ensures InsertAt(InsertAt(s, q, x), q + |x|, [i]) == InsertAt(s, q, y)
  {
  }

  lemma OpenCallText(prog: seq<Insn>, q: nat, n: nat)
    requires q <= |prog|
    ensures
      var s3 := InsertAt(InsertAt(InsertAt(prog, q, [Jmp(n + 1)]), q + 1, [Label(n)]), q + 2, [Ret]);
      InsertAt(InsertAt(InsertAt(s3, q + 3, [Label(n + 1)]), q + 4, [Call(n)]), q + 5, [Label(n + 2)])
        == InsertAt(prog, q, CallCode([], n))
    ensures InsertAt(prog, q, CallCode([], n))[q + 1] == Label(n)
  {
    hide InsertAt;
    var x := CallCode([], n);
    assert x == [Jmp(n + 1), Label(n), Ret, Label(n + 1), Call(n), Label(n + 2)];
    InsertedAt(prog, q, x, 1);
    var x1, x2 := [Jmp(n + 1)], [Jmp(n + 1), Label(n)];
    var x3, x4 := [Jmp(n + 1), Label(n), Ret], [Jmp(n + 1), Label(n), Ret, Label(n + 1)];
    var x5 := [Jmp(n + 1), Label(n), Ret, Label(n + 1), Call(n)];
    InsertBehind(prog, q, x1, Label(n), x2);
    InsertBehind(prog, q, x2, Ret, x3);
    InsertBehind(prog, q, x3, Label(n + 1), x4);
    InsertBehind(prog, q, x4, Call(n), x5);
    InsertBehind(prog, q, x5, Label(n + 2), x);
  }

  lemma PadText(prog: seq<Insn>, i: nat, k: nat, m: nat)
    requires i <= |prog|
    ensures InsertAt(InsertAt(prog, i, [Jmp(k)]), i + 1, [Label(m)]) == InsertAt(prog, i, Pad(k, m))
  {
  }

  // A whole session: the text handed to the output is the finished program of the specification.
  method Generate(ops: seq<Op>) returns (text: seq<Insn>)
    ensures text == Finish(Build(ops)).prog
    ensures Assembles(text)
  {
    hide Generator.Valid, Generator.State, Finish, Apply, Find, List.Valid;
    var gen := new Generator();
    for i := 0 to |ops|
      invariant gen.Valid() && !gen.lockCtrl && fresh(gen) && fresh(gen.list)
      invariant fresh(set n | n in gen.list.nodes)
      invariant gen.State() == Build(ops[..i])
    {
      gen.Perform(ops[i]);
      assert ops[..i + 1][..i] == ops[..i];
    }
    assert ops[..|ops|] == ops;
    BuildValid(ops);
    gen.Facts();
    gen.FinishProgram();
    text := gen.Output();
  }
}
