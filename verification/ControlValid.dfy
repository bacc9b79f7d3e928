// Every step keeps the list well formed.

module ControlValid {
  import opened ControlProgram
  import opened ControlSplice
  import opened ControlSpec

  lemma EmitValid(g: Gen, x: seq<Insn>, keep: nat, extra: nat)
    requires Valid(g) && Extends(g, x, extra) && 0 < keep <= |x| && FallsThrough(x[keep - 1])
    ensures Valid(Emit(g, x, keep, extra))
  {
    InsertValid(g, g.pos + 1, x, extra);
    assert InsertAt(g.prog, g.pos + 1, x)[g.pos + keep] == x[keep - 1];
  }

  lemma PadValid(g: Gen, x: seq<Insn>, k: nat)
    requires Valid(g) && BranchCode(x, g.labels) && k < g.labels
    ensures Valid(EmitPad(Emit(g, x, |x|, 0), k))
  {
    hide UniqueLabels, Find;
    var m := g.labels;
    assert Has(g.prog, k) && !Has(g.prog, m);
    InsertBranch(g.prog, g.pos + 1, x, k, m);
    var p1 := InsertAt(g.prog, g.pos + 1, x);
    var i := Find(p1, k);
    var p2 := InsertAt(p1, i, Pad(k, m));
    PadFresh(p1, i, k, m);
    forall j: nat ensures Has(p2, j) <==> j < m + 1 {
      InsertHas(g.prog, g.pos + 1, x, Label(j));
      InsertHas(p1, i, Pad(k, m), Label(j));
      assert Has(g.prog, j) <==> j < m;
      assert Label(j) in Pad(k, m) <==> j == m;
    }
    InsertTargets(g.prog, g.pos + 1, x, m + 1);
    InsertTargets(p1, i, Pad(k, m), m + 1);
  }

  lemma PadFresh(p: seq<Insn>, i: nat, k: nat, m: nat)
    requires i <= |p| && UniqueLabels(p) && !Has(p, m)
    ensures UniqueLabels(InsertAt(p, i, Pad(k, m))) && InsertAt(p, i, Pad(k, m))[i + 1] == Label(m)
  {
    InsertUnique(p, i, Pad(k, m));
  }

  lemma InsertTargets(p: seq<Insn>, q: nat, x: seq<Insn>, n: nat)
    requires q <= |p| && TargetsBelow(p, n) && TargetsBelow(x, n)
    ensures TargetsBelow(InsertAt(p, q, x), n)
  {
    var np := InsertAt(p, q, x);
    forall i | 0 <= i < |np| && Branches(np[i]) ensures np[i].n < n {
      if i < q { assert np[i] == p[i]; }
      else if i < q + |x| { assert np[i] == x[i - q]; }
      else { assert np[i] == p[i - |x|]; }
    }
  }

  // A body of straight-line code between an entry and an exit sequence.
  lemma BodyExtends(g: Gen, a: seq<Insn>, body: seq<nat>, b: seq<Insn>, extra: nat)
    requires Extends(g, a + b, extra)
    ensures Extends(g, a + Plains(body) + b, extra)
  {
    var s, x := a + b, a + Plains(body) + b;
    var w := |body|;
    forall i, j | 0 <= i < j < |x| ensures !SameLabel(x, i, j) {
      if x[i].Label? && x[j].Label? {
        assert x[i] == s[if i < |a| then i else i - w] && x[j] == s[if j < |a| then j else j - w];
        assert !SameLabel(s, if i < |a| then i else i - w, if j < |a| then j else j - w);
      }
    }
    forall k: nat ensures Has(x, k) <==> g.labels <= k < g.labels + extra {
      assert Label(k) in s <==> Label(k) in a || Label(k) in b;
      assert Label(k) in x <==> Label(k) in a || Label(k) in Plains(body) || Label(k) in b;
      assert Has(s, k) <==> g.labels <= k < g.labels + extra;
    }
    forall i | 0 <= i < |x| && Branches(x[i]) ensures x[i].n < g.labels + extra {
      assert x[i] == s[if i < |a| then i else i - w];
    }
  }

  lemma LoopCodeExtends(g: Gen, kind: LoopKind, times: int, body: seq<nat>)
    ensures Extends(g, LoopCode(kind, times, body, g.labels), 2)
  {
    var n := g.labels;
    var a, b := [MovEcx(times), Label(n + 1)], [Loop(kind, n + 1), Label(n)];
    var s := a + b;
    assert s == [MovEcx(times), Label(n + 1), Loop(kind, n + 1), Label(n)];
    assert s[1] == Label(n + 1) && s[3] == Label(n);
    BodyExtends(g, a, body, b, 2);
  }

  lemma CallCodeExtends(g: Gen, body: seq<nat>)
    ensures Extends(g, CallCode(body, g.labels), 3)
  {
    var n := g.labels;
    var a, b := [Jmp(n + 1), Label(n)], [Ret, Label(n + 1), Call(n), Label(n + 2)];
    var s := a + b;
    assert s == [Jmp(n + 1), Label(n), Ret, Label(n + 1), Call(n), Label(n + 2)];
    assert s[1] == Label(n) && s[3] == Label(n + 1) && s[5] == Label(n + 2);
    BodyExtends(g, a, body, b, 3);
  }

  lemma ShortExtends(g: Gen, x: seq<Insn>)
    requires
      (|x| == 1 && x[0].Plain?) || x == [Label(g.labels)] || x == [Label(g.labels), Jmp(g.labels)]
      || x == [Jcc(g.labels), Label(g.labels), Jmp(g.labels)]
    ensures Extends(g, x, if x[0].Plain? then 0 else 1)
  {
    assert !x[0].Plain? ==> Label(g.labels) == x[if x[0].Label? then 0 else 1];
  }

  lemma ApplyValid(g: Gen, op: Op)
    requires Valid(g)
    ensures Valid(Apply(g, op))
  {
    hide UniqueLabels, Branches, Find, Valid, Extends;
    var n := g.labels;
    match op {
      case Straight(id) =>
        ShortExtends(g, [Plain(id)]);
        EmitValid(g, [Plain(id)], 1, 0);
      case RandomLabel =>
        ShortExtends(g, [Label(n)]);
        EmitValid(g, [Label(n)], 1, 1);
      case Jump(choice) =>
        if n == 0 {
          ShortExtends(g, [Label(0), Jmp(0)]);
          EmitValid(g, [Label(0), Jmp(0)], 1, 1);
        } else {
          PadValid(g, [Jmp(n)], choice % n);
        }
      case CondJump(choice) =>
        if n == 0 {
          ShortExtends(g, [Jcc(0), Label(0), Jmp(0)]);
          EmitValid(g, [Jcc(0), Label(0), Jmp(0)], 2, 1);
        } else {
          PadValid(g, [Jcc(n), Jmp(n)], choice % n);
        }
      case LoopBlock(kind, times, body) =>
        LoopCodeExtends(g, kind, times, body);
        EmitValid(g, LoopCode(kind, times, body, n), |body| + 4, 2);
      case CallBlock(body) =>
        CallCodeExtends(g, body);
        EmitValid(g, CallCode(body, n), |body| + 6, 3);
    }
  }

  lemma FinishValid(g: Gen)
    requires Valid(g)
    ensures Valid(Finish(g))
    ensures Finish(g).pos == |Finish(g).prog| - 1 && Finish(g).prog[Finish(g).pos] == Label(g.labels)
  {
    hide UniqueLabels;
    var m := g.labels;
    assert !Has(g.prog, m);
    var p1, p2 := InsertAt(g.prog, g.pos + 1, [Jmp(m)]), Finish(g).prog;
    assert p2 == InsertAt(p1, |p1|, [Label(m)]);
    JumpUnique(g.prog, g.pos + 1, m);
    forall j: nat ensures Has(p2, j) <==> j < m + 1 {
      InsertHas(g.prog, g.pos + 1, [Jmp(m)], Label(j));
      assert Has(g.prog, j) <==> j < m;
    }
    InsertTargets(g.prog, g.pos + 1, [Jmp(m)], m + 1);
    InsertTargets(p1, |p1|, [Label(m)], m + 1);
  }

  lemma JumpUnique(p: seq<Insn>, q: nat, m: nat)
    requires q <= |p| && UniqueLabels(p) && !Has(p, m)
    ensures
      var p1 := InsertAt(p, q, [Jmp(m)]);
      UniqueLabels(p1) && !Has(p1, m) && UniqueLabels(p1 + [Label(m)])
  {
    InsertUnique(p, q, [Jmp(m)]);
    var p1 := InsertAt(p, q, [Jmp(m)]);
    InsertHas(p, q, [Jmp(m)], Label(m));
    InsertUnique(p1, |p1|, [Label(m)]);
    assert InsertAt(p1, |p1|, [Label(m)]) == p1 + [Label(m)];
  }
}
