// The leaves of an operand tree by their paths.

module TreePaths {
  import opened Arithmetic
  import opened Combinations
  import opened Traverse

  // ---- Laws of the leaves ----

  lemma GroupLeaves<V>(vals: seq<V>)
    ensures Leaves(Group(vals)) == vals
  {
  }

  lemma {:induction false} UpToSame<V>(s: Tree<V>, t: Tree<V>, n: nat)
    requires s.Branch? && t.Branch? && n <= |s.subs| && n <= |t.subs| && s.subs[..n] == t.subs[..n]
    ensures LeavesUpTo(s, n) == LeavesUpTo(t, n)
    decreases n
  {
    if n > 0 {
      assert s.subs[..n][..n - 1] == s.subs[..n - 1] && t.subs[..n][..n - 1] == t.subs[..n - 1];
      assert s.subs[n - 1] == s.subs[..n][n - 1] && t.subs[n - 1] == t.subs[..n][n - 1];
      UpToSame(s, t, n - 1);
    }
  }

  lemma NoLeaves<V>()
    ensures Leaves<V>(Branch([])) == []
  {
  }

  lemma LeavesNext<V>(subs: seq<Tree<V>>, t: Tree<V>)
    ensures Leaves(Branch(subs + [t])) == Leaves(Branch(subs)) + Leaves(t)
  {
    var b := Branch(subs + [t]);
    assert b.subs[..|subs|] == subs == Branch(subs).subs[..|subs|];
    UpToSame(b, Branch(subs), |subs|);
  }

  // The leaves of sub-trees side by side are those of the first ones, then those of the others.
  lemma {:induction false} LeavesAppend<V>(a: seq<Tree<V>>, b: seq<Tree<V>>)
    ensures Leaves(Branch(a + b)) == Leaves(Branch(a)) + Leaves(Branch(b))
    decreases |b|
  {
    hide Leaves;
    if b == [] {
      assert a + b == a;
      NoLeaves<V>();
    } else {
      var c, t := b[..|b| - 1], b[|b| - 1];
      assert a + b == (a + c) + [t] && b == c + [t];
      LeavesNext(a + c, t);
      LeavesNext(c, t);
      LeavesAppend(a, c);
    }
  }

  lemma OneSub<V>(t: Tree<V>)
    ensures Leaves(Branch([t])) == Leaves(t)
  {
    hide Leaves;
    LeavesNext([], t);
    NoLeaves<V>();
    assert [] + [t] == [t];
  }

  // ---- Paths ----

  // p takes a sub-tree at every branch and ends with a value of a group.
  predicate Leads<V>(t: Tree<V>, p: seq<nat>)
    decreases t
  {
    p != [] &&
    if t.Group? then |p| == 1 && p[0] < |t.vals| else p[0] < |t.subs| && Leads(t.subs[p[0]], p[1..])
  }

  function Led<V>(t: Tree<V>, p: seq<nat>): V
    requires Leads(t, p)
    decreases t
  {
    if t.Group? then t.vals[p[0]] else Led(t.subs[p[0]], p[1..])
  }

  // Where the value of a path stands among the leaves.
  function Place<V>(t: Tree<V>, p: seq<nat>): nat
    requires Leads(t, p)
    decreases t
  {
    if t.Group? then p[0] else |Leaves(Branch(t.subs[..p[0]]))| + Place(t.subs[p[0]], p[1..])
  }

  lemma Around<V>(subs: seq<Tree<V>>, i: nat)
    requires i < |subs|
    ensures Leaves(Branch(subs)) == Leaves(Branch(subs[..i])) + Leaves(subs[i]) + Leaves(Branch(subs[i + 1..]))
  {
    hide Leaves;
    assert subs == (subs[..i] + [subs[i]]) + subs[i + 1..];
    LeavesAppend(subs[..i] + [subs[i]], subs[i + 1..]);
    LeavesNext(subs[..i], subs[i]);
  }

  // Every path is at its place.
  lemma {:induction false} LeafAt<V>(t: Tree<V>, p: seq<nat>)
    requires Leads(t, p)
    ensures Place(t, p) < |Leaves(t)| && Leaves(t)[Place(t, p)] == Led(t, p)
    decreases t
  {
    if t.Branch? {
      LeafAt(t.subs[p[0]], p[1..]);
      BranchIs(t);
      Around(t.subs, p[0]);
    }
  }

  lemma BranchIs<V>(t: Tree<V>)
    requires t.Branch?
    ensures t == Branch(t.subs)
  {
  }

  // Every place belongs to a path.
  lemma {:induction false} PathAt<V>(t: Tree<V>, k: nat) returns (p: seq<nat>)
    requires k < |Leaves(t)|
    ensures Leads(t, p) && Place(t, p) == k
    decreases t, if t.Group? then 0 else |t.subs|
  {
    if t.Group? {
      p := [k];
    } else {
      var i := SubAt(t.subs, k);
      var q := PathAt(t.subs[i], k - |Leaves(Branch(t.subs[..i]))|);
      p := [i] + q;
      assert p[1..] == q;
    }
  }

  // The sub-tree that holds leaf k.
  lemma {:induction false} SubAt<V>(subs: seq<Tree<V>>, k: nat) returns (i: nat)
    requires k < |Leaves(Branch(subs))|
    ensures i < |subs|
    ensures |Leaves(Branch(subs[..i]))| <= k < |Leaves(Branch(subs[..i]))| + |Leaves(subs[i])|
    decreases |subs|
  {
    NoLeaves<V>();
    assert subs != [];
    var n := |subs| - 1;
    assert subs == subs[..n] + [subs[n]];
    LeavesNext(subs[..n], subs[n]);
    if k >= |Leaves(Branch(subs[..n]))| {
      i := n;
    } else {
      i := SubAt(subs[..n], k);
      assert subs[..n][..i] == subs[..i];
    }
  }

  // p comes before q: the first index that differs is smaller.
  predicate Earlier(p: seq<nat>, q: seq<nat>) {
    p != [] && q != [] && (p[0] < q[0] || (p[0] == q[0] && Earlier(p[1..], q[1..])))
  }

  // Places follow the order of the paths, so that different paths have different places.
  lemma {:induction false} PlaceOrder<V>(t: Tree<V>, p: seq<nat>, q: seq<nat>)
    requires Leads(t, p) && Leads(t, q) && Earlier(p, q)
    ensures Place(t, p) < Place(t, q)
    decreases t
  {
    if t.Branch? {
      if p[0] == q[0] {
        PlaceOrder(t.subs[p[0]], p[1..], q[1..]);
      } else {
        LeafAt(t.subs[p[0]], p[1..]);
        Around(t.subs[..q[0]], p[0]);
        assert t.subs[..q[0]][..p[0]] == t.subs[..p[0]];
      }
    }
  }

  lemma {:induction false} OneEarlier<V>(t: Tree<V>, p: seq<nat>, q: seq<nat>)
    requires Leads(t, p) && Leads(t, q) && p != q
    ensures Earlier(p, q) || Earlier(q, p)
    decreases t
  {
    assert p == [p[0]] + p[1..] && q == [q[0]] + q[1..];
    if t.Branch? && p[0] == q[0] {
      OneEarlier(t.subs[p[0]], p[1..], q[1..]);
    }
  }

  // ---- The slots ----

  // The tree that each value of an operand comes from: packedn times the same one for every operand.
  function SlotTrees<V>(roots: seq<Root<V>>): seq<Tree<V>> {
    if roots == [] then []
    else seq(roots[0].packedn, k requires 0 <= k < roots[0].packedn => roots[0].tree) + SlotTrees(roots[1..])
  }

  // The slots of one operand from packedi on, then those of the other operands.
  lemma {:induction false} SlotsNext<V>(roots: seq<Root<V>>, i: nat, j: nat)
    requires i < |roots| && j <= roots[i].packedn
    ensures
      var n := roots[i].packedn - j;
      From(roots, i, j) == seq(n, k requires 0 <= k < n => Leaves(roots[i].tree)) + From(roots, i + 1, 0)
    decreases roots[i].packedn - j
  {
    hide Leaves;
    if j < roots[i].packedn {
      SlotsNext(roots, i, j + 1);
    }
  }

  lemma {:induction false} SlotsFrom<V>(roots: seq<Root<V>>, i: nat)
    requires i <= |roots|
    ensures |From(roots, i, 0)| == |SlotTrees(roots[i..])|
    ensures forall k :: 0 <= k < |SlotTrees(roots[i..])| ==> From(roots, i, 0)[k] == Leaves(SlotTrees(roots[i..])[k])
    decreases |roots| - i
  {
    hide Leaves;
    if i < |roots| {
      assert roots[i..][1..] == roots[i + 1..] && roots[i..][0] == roots[i];
      SlotsFrom(roots, i + 1);
      SlotsNext(roots, i, 0);
    }
  }

  // One path per slot.
  ghost predicate Paths<V>(trees: seq<Tree<V>>, p: seq<seq<nat>>) {
    |p| == |trees| && forall k :: 0 <= k < |p| ==> Leads(trees[k], p[k])
  }

  // Main result: for every way to take a leaf of its tree for every slot, the values taken are a combination of the
  // enumeration, at the rank of the places of the leaves.
  lemma EveryCombination<V>(roots: seq<Root<V>>, p: seq<seq<nat>>) returns (c: seq<nat>)
    requires Paths(SlotTrees(roots), p)
    ensures |c| == |p| && forall k :: 0 <= k < |p| ==> c[k] == Place(SlotTrees(roots)[k], p[k])
    ensures Choice(Slots(roots), c) && Rank(Slots(roots), c) < |Product(Slots(roots))|
    ensures
      var all := Product(Slots(roots))[Rank(Slots(roots), c)];
      |all| == |p| && forall k :: 0 <= k < |p| ==> all[k] == Led(SlotTrees(roots)[k], p[k])
  {
    hide Leaves, Product, Rank;
    var trees, slots := SlotTrees(roots), Slots(roots);
    assert roots[0..] == roots;
    SlotsFrom(roots, 0);
    c := seq(|p|, k requires 0 <= k < |p| => Place(trees[k], p[k]));
    forall k | 0 <= k < |p| ensures c[k] < |slots[k]| && slots[k][c[k]] == Led(trees[k], p[k]) {
      LeafAt(trees[k], p[k]);
    }
    ProductAt(slots, c);
    PickAt(slots, c);
  }

  lemma {:induction false} PickAt<V>(slots: seq<seq<V>>, c: seq<nat>)
    requires Choice(slots, c)
    ensures |Pick(slots, c)| == |c| && forall k :: 0 <= k < |c| ==> Pick(slots, c)[k] == slots[k][c[k]]
  {
    if c != [] {
      PickAt(slots[1..], c[1..]);
      assert forall k :: 0 < k < |c| ==> slots[1..][k - 1] == slots[k] && c[1..][k - 1] == c[k];
    }
  }

  // And every combination of the enumeration is taken along such paths.
  lemma NoOtherCombination<V>(roots: seq<Root<V>>, i: nat) returns (p: seq<seq<nat>>, c: seq<nat>)
    requires i < |Product(Slots(roots))|
    ensures Paths(SlotTrees(roots), p) && Choice(Slots(roots), c) && Rank(Slots(roots), c) == i
    ensures |c| == |p| && forall k :: 0 <= k < |p| ==> c[k] == Place(SlotTrees(roots)[k], p[k])
  {
    hide Leaves, Product, Rank;
    var trees, slots := SlotTrees(roots), Slots(roots);
    assert roots[0..] == roots;
    SlotsFrom(roots, 0);
    c := RankUnique(slots, i);
    p := [];
    for k := 0 to |c|
      invariant |p| == k
      invariant forall j :: 0 <= j < k ==> Leads(trees[j], p[j]) && Place(trees[j], p[j]) == c[j]
    {
      var q := PathAt(trees[k], c[k]);
      p := p + [q];
    }
  }
}
