// Counting and sampling combinations.

module Traverse {
  import opened Arithmetic
  import opened Combinations
  import Primes

  // The values of an operand hang in a tree.
  datatype Tree<V> = Group(vals: seq<V>) | Branch(subs: seq<Tree<V>>)

  // packedn values are taken from the same tree.
  datatype Root<V> = Root(tree: Tree<V>, packedn: nat)

  function Leaves<V>(t: Tree<V>): seq<V>
    decreases t, if t.Group? then 0 else |t.subs| + 1
  {
    if t.Group? then t.vals else LeavesUpTo(t, |t.subs|)
  }

  function LeavesUpTo<V>(t: Tree<V>, n: nat): seq<V>
    requires t.Branch? && n <= |t.subs|
    decreases t, n
  {
    if n == 0 then [] else LeavesUpTo(t, n - 1) + Leaves(t.subs[n - 1])
  }

  method LeafNum<V>(t: Tree<V>) returns (num: nat)
    ensures num == |Leaves(t)|
    decreases t
  {
    if t.Group? {
      return |t.vals|;
    }
    num := 0;
    for i := 0 to |t.subs|
      invariant num == |LeavesUpTo(t, i)|
    {
      var n := LeafNum(t.subs[i]);
      num := num + n;
    }
  }

  // All slots from slot packedi of tree treei on.
  function From<V>(roots: seq<Root<V>>, treei: nat, packedi: nat): seq<seq<V>>
    decreases |roots| - treei, if treei < |roots| then roots[treei].packedn - packedi else 0
  {
    if treei >= |roots| then []
    else if packedi < roots[treei].packedn then [Leaves(roots[treei].tree)] + From(roots, treei, packedi + 1)
    else From(roots, treei + 1, 0)
  }

  function Slots<V>(roots: seq<Root<V>>): seq<seq<V>> {
    From(roots, 0, 0)
  }

  function Flat<V>(nodes: seq<seq<V>>): seq<V> {
    if nodes == [] then [] else Flat(nodes[..|nodes| - 1]) + nodes[|nodes| - 1]
  }

  // The combinations whose number, counted from start, is a multiple of the step.
  function Sample<V>(all: seq<V>, start: nat, step: nat): seq<V>
    requires step > 0
  {
    if all == [] then []
    else
      Sample(all[..|all| - 1], start, step) + if (start + |all| - 1) % step == 0 then [all[|all| - 1]] else []
  }

  lemma {:induction false} SampleAppend<V>(a: seq<V>, b: seq<V>, start: nat, step: nat)
    requires step > 0
    ensures Sample(a + b, start, step) == Sample(a, start, step) + Sample(b, start + |a|, step)
    decreases |b|
  {
    if b == [] {
      assert a + b == a;
    } else {
      var c := b[..|b| - 1];
      assert (a + b)[..|a + b| - 1] == a + c;
      SampleAppend(a, c, start, step);
    }
  }

  // How many there are, and which.
  lemma {:induction false} SampleAt<V>(all: seq<V>, step: nat)
    requires step > 0
    ensures |Sample(all, 0, step)| == (|all| + step - 1) / step
    ensures forall k :: 0 <= k < |Sample(all, 0, step)| ==>
              0 <= k * step < |all| && Sample(all, 0, step)[k] == all[k * step]
  {
    if all == [] {
      SmallQuotient(step - 1, step);
    } else {
      var n := |all| - 1;
      var c := all[..n];
      SampleAt(c, step);
      CeilNext(n, step);
    }
  }

  lemma SmallQuotient(x: nat, d: nat)
    requires x < d
    ensures x / d == 0
  {
    DivUnique(x, d, 0, x);
  }

  lemma CeilNext(n: nat, step: nat)
    requires step > 0
    ensures (n + step) / step == (n + step - 1) / step + if n % step == 0 then 1 else 0
    ensures n % step == 0 ==> (n + step - 1) / step * step == n
  {
    var q, r := n / step, n % step;
    NextMultiple(q, step);
    QuotientNonneg(n, step);
    DivUnique(n + step, step, q + 1, r);
    if r == 0 {
      DivUnique(n + step - 1, step, q, step - 1);
    } else {
      DivUnique(n + step - 1, step, q + 1, r - 1);
    }
  }

  lemma QuotientNonneg(n: nat, d: nat)
    requires d > 0
    ensures n / d >= 0
  {
  }

  lemma {:induction false} HeadsAppend<V>(a: seq<V>, b: seq<V>, rest: seq<seq<V>>)
    ensures Heads(a + b, rest) == Heads(a, rest) + Heads(b, rest)
    decreases |b|
  {
    hide Product, Prefixed;
    if b == [] {
      assert a + b == a;
    } else {
      var c := b[..|b| - 1];
      assert (a + b)[..|a + b| - 1] == a + c;
      HeadsAppend(a, c, rest);
    }
  }

  lemma PrefixedTwice<V>(p: seq<V>, v: V, all: seq<seq<V>>)
    ensures Prefixed(p, Prefixed([v], all)) == Prefixed(p + [v], all)
  {
    forall i | 0 <= i < |all| ensures Prefixed(p, Prefixed([v], all))[i] == Prefixed(p + [v], all)[i] {
      assert p + ([v] + all[i]) == p + [v] + all[i];
    }
  }

  lemma PrefixedAppend<V>(p: seq<V>, a: seq<seq<V>>, b: seq<seq<V>>)
    ensures Prefixed(p, a + b) == Prefixed(p, a) + Prefixed(p, b)
  {
  }

  function AllFlat<V>(runs: seq<seq<seq<V>>>): (r: seq<seq<V>>)
    ensures |r| == |runs| && forall i :: 0 <= i < |r| ==> r[i] == Flat(runs[i])
  {
    seq(|runs|, i requires 0 <= i < |runs| => Flat(runs[i]))
  }

  lemma PushValue<V>(n: seq<seq<V>>, v: V)
    requires n != []
    ensures Flat(n[..|n| - 1] + [n[|n| - 1] + [v]]) == Flat(n) + [v]
  {
    hide Flat;
    var a, x := n[..|n| - 1], n[|n| - 1];
    assert n == a + [x];
    FlatSnoc(a, x);
    FlatSnoc(a, x + [v]);
    Regroup(Flat(a), x, [v]);
  }

  lemma Regroup<V>(a: seq<V>, b: seq<V>, c: seq<V>)
    ensures a + (b + c) == a + b + c
  {
  }

  lemma FlatSnoc<V>(a: seq<seq<V>>, x: seq<V>)
    ensures Flat(a + [x]) == Flat(a) + x
  {
    assert (a + [x])[..|a|] == a;
  }

  lemma PushList<V>(n: seq<seq<V>>)
    ensures Flat(n + [[]]) == Flat(n)
  {
    FlatSnoc(n, []);
  }

  lemma FlatMore<V>(runs: seq<seq<seq<V>>>, n: seq<seq<V>>)
    ensures AllFlat(runs + [n]) == AllFlat(runs) + [Flat(n)]
  {
  }

  // With no slot left there is one way to go on.
  lemma OneSample<V>(p: seq<V>, start: nat, step: nat)
    requires step > 0
    ensures |Prefixed(p, Product([]))| == 1
    ensures Sample(Prefixed(p, Product([])), start, step) == if start % step == 0 then [p] else []
  {
    var all := Prefixed(p, Product([]));
    assert all == [p + []] && p + [] == p;
    assert all[..0] == [];
  }

  // The next slot is in the same tree or opens the next one.
  lemma RestNext<V>(roots: seq<Root<V>>, treei: nat, packedi: nat)
    requires treei < |roots| && packedi < roots[treei].packedn
    requires forall k :: 0 <= k < |roots| ==> roots[k].packedn > 0
    ensures
      var rest := From(roots, treei, packedi + 1);
      if packedi + 1 < roots[treei].packedn then
        && Product(rest) == Heads(Leaves(roots[treei].tree), From(roots, treei, packedi + 2))
        && |From(roots, treei, packedi + 2)| < |rest|
      else if treei + 1 < |roots| then
        && Product(rest) == Heads(Leaves(roots[treei + 1].tree), From(roots, treei + 1, 1))
        && |From(roots, treei + 1, 1)| < |rest|
      else rest == []
  {
    FromNext(roots, treei, packedi + 1);
  }

  lemma FromNext<V>(roots: seq<Root<V>>, treei: nat, packedi: nat)
    requires treei < |roots| && packedi <= roots[treei].packedn
    requires forall k :: 0 <= k < |roots| ==> roots[k].packedn > 0
    ensures
      var rest := From(roots, treei, packedi);
      if packedi < roots[treei].packedn then
        rest != [] && rest[0] == Leaves(roots[treei].tree) && rest[1..] == From(roots, treei, packedi + 1)
      else if treei + 1 < |roots| then
        rest != [] && rest[0] == Leaves(roots[treei + 1].tree) && rest[1..] == From(roots, treei + 1, 1)
      else rest == []
  {
    if packedi == roots[treei].packedn && treei + 1 < |roots| {
      assert From(roots, treei, packedi) == From(roots, treei + 1, 0);
    }
  }

  lemma HeadsStep<V>(heads: seq<V>, i: nat, rest: seq<seq<V>>)
    requires i < |heads|
    ensures Heads(heads[..i + 1], rest) == Heads(heads[..i], rest) + Prefixed([heads[i]], Product(rest))
  {
    assert heads[..i + 1][..i] == heads[..i];
  }

  // One more part of an enumeration.
  lemma Extend<V>(p: seq<V>, a: seq<seq<V>>, b: seq<seq<V>>, start: nat, step: nat)
    requires step > 0
    ensures |Prefixed(p, a + b)| == |a| + |b|
    ensures Sample(Prefixed(p, a + b), start, step) ==
            Sample(Prefixed(p, a), start, step) + Sample(Prefixed(p, b), start + |a|, step)
  {
    PrefixedAppend(p, a, b);
    SampleAppend(Prefixed(p, a), Prefixed(p, b), start, step);
  }

  lemma ExtendNone<V>(p: seq<V>, start: nat, step: nat)
    requires step > 0
    ensures Sample(Prefixed(p, []), start, step) == []
  {
  }

  lemma NoHeads<V>(node: Tree<V>, rest: seq<seq<V>>)
    ensures node.Group? ==> node.vals[..0] == []
    ensures node.Branch? ==> LeavesUpTo(node, 0) == []
    ensures Heads([], rest) == []
  {
  }

  class Traversal<V> {
    const roots: seq<Root<V>>
    var nodes: seq<seq<V>>
    var index: nat
    var step: nat
    // the values that each run of the block has seen
    var runs: seq<seq<seq<V>>>

    constructor (roots: seq<Root<V>>)
      ensures this.roots == roots && nodes == [] && runs == []
    {
      this.roots := roots;
      nodes, index, step, runs := [], 0, 1, [];
    }

    ghost predicate Packed() {
      forall k :: 0 <= k < |roots| ==> roots[k].packedn > 0
    }

    // One list of values per operand tree.
    ghost predicate Shaped(n: seq<seq<V>>) {
      |n| == |roots| && forall k :: 0 <= k < |n| ==> |n[k]| == roots[k].packedn
    }

    ghost predicate AllShaped()
      reads this
    {
      forall r :: 0 <= r < |runs| ==> Shaped(runs[r])
    }

    // The lists of the trees before treei are complete, and packedi values of treei are taken.
    ghost predicate At(treei: nat, packedi: nat)
      reads this
    {
      && Packed() && treei < |roots| && packedi < roots[treei].packedn
      && |nodes| == treei + 1 && |nodes[treei]| == packedi
      && forall k :: 0 <= k < treei ==> |nodes[k]| == roots[k].packedn
    }

    // What a part of the traversal does: it counts all, runs the block on the sample, and puts the lists back.
    twostate predicate Did(new all: seq<seq<V>>)
      reads this
    {
      && nodes == old(nodes) && step == old(step) > 0 && index == old(index) + |all|
      && AllFlat(runs) == AllFlat(old(runs)) + Sample(all, old(index), step)
      && (old(AllShaped()) ==> AllShaped())
    }

    method Visit(node: Tree<V>, treei: nat, packedi: nat)
      requires step > 0 && At(treei, packedi)
      modifies this
      ensures Did(Prefixed(Flat(nodes), Heads(Leaves(node), From(roots, treei, packedi + 1))))
      decreases |From(roots, treei, packedi + 1)|, 1, node
    {
      hide Sample, Prefixed, Product, Heads, Flat, AllFlat, From;
      ghost var rest, p := From(roots, treei, packedi + 1), Flat(nodes);
      NoHeads(node, rest);
      ExtendNone(p, index, step);
      if node.Group? {
        for i := 0 to |node.vals|
          invariant At(treei, packedi) && Did(Prefixed(p, Heads(node.vals[..i], rest)))
        {
          HeadsStep(node.vals, i, rest);
          Extend(p, Heads(node.vals[..i], rest), Prefixed([node.vals[i]], Product(rest)), old(index), step);
          Take(node.vals[i], treei, packedi);
        }
        assert node.vals[..|node.vals|] == node.vals;
      } else {
        for i := 0 to |node.subs|
          invariant At(treei, packedi) && Did(Prefixed(p, Heads(LeavesUpTo(node, i), rest)))
        {
          HeadsAppend(LeavesUpTo(node, i), Leaves(node.subs[i]), rest);
          Extend(p, Heads(LeavesUpTo(node, i), rest), Heads(Leaves(node.subs[i]), rest), old(index), step);
          Visit(node.subs[i], treei, packedi);
        }
      }
    }

    // One value of a leaf, and everything behind it.
    method Take(v: V, treei: nat, packedi: nat)
      requires step > 0 && At(treei, packedi)
      modifies this
      ensures Did(Prefixed(Flat(nodes), Prefixed([v], Product(From(roots, treei, packedi + 1)))))
      decreases |From(roots, treei, packedi + 1)|, 0
    {
      hide Sample, Prefixed, Product, Heads, Flat, AllFlat, From, Leaves;
      PushValue(nodes, v);
      PrefixedTwice(Flat(nodes), v, Product(From(roots, treei, packedi + 1)));
      RestNext(roots, treei, packedi);
      nodes := nodes[..treei] + [nodes[treei] + [v]];
      if treei + 1 == |roots| && packedi + 1 == roots[treei].packedn {
        OneSample(Flat(nodes), index, step);
        if index % step == 0 {
          FlatMore(runs, nodes);
          runs := runs + [nodes];
        }
        index := index + 1;
      } else if packedi + 1 == roots[treei].packedn {
        PushList(nodes);
        nodes := nodes + [[]];
        Visit(roots[treei + 1].tree, treei + 1, 0);
        nodes := nodes[..treei + 1];
      } else {
        Visit(roots[treei].tree, treei, packedi + 1);
      }
      nodes := nodes[..treei] + [nodes[treei][..packedi]];
      assert nodes == old(nodes);
    }
  
    // The product of the leaf numbers over all slots.
    method PossibleNum() returns (num: nat)
      ensures num == Combinations.Count(Slots(roots))
    {
      num := 1;
      var i := 0;
      while i < |roots|
        invariant i <= |roots|
        invariant num * Combinations.Count(From(roots, i, 0)) == Combinations.Count(Slots(roots))
      {
        var leafNum := LeafNum(roots[i].tree);
        var j := 0;
        while j < roots[i].packedn
          invariant j <= roots[i].packedn
          invariant num * Combinations.Count(From(roots, i, j)) == Combinations.Count(Slots(roots))
        {
          assert From(roots, i, j)[1..] == From(roots, i, j + 1);
          MulAssoc(num, leafNum, Combinations.Count(From(roots, i, j + 1)));
          MulMono(0, num, leafNum);
          num := num * leafNum;
          j := j + 1;
        }
        i := i + 1;
      }
    }

    // Every combination is counted; the block runs for each one of few, and of many for at least 4096 that are
    // evenly spaced by a prime.
    method Walk()
      requires Packed() && nodes == [] && runs == []
      modifies this
      ensures nodes == [] && AllShaped()
      ensures |roots| == 0 ==> runs == []
      ensures |roots| > 0 ==>
        var all := Product(Slots(roots));
        && step > 0 && index == |all| && AllFlat(runs) == Sample(all, 0, step)
        && (if |all| < EXPECTED then step == 1 else Primes.Prime(step) && step <= |all| / EXPECTED + 1)
        && (if |all| < EXPECTED then |runs| == |all| else |runs| >= EXPECTED / 2)
    {
      hide Product, Sample, Prefixed, AllFlat, Flat, Heads, From, Leaves, Slots, Combinations.Count;
      var num := PossibleNum();
      if |roots| != 0 {
        ghost var all := Product(Slots(roots));
        step := 1;
        index := 0;
        if num / EXPECTED > 0 {
          step := Primes.GreatestPrime(num / EXPECTED + 1);
        }
        ProductCount(Slots(roots));
        FirstSlot(roots);
        nodes := [[]];
        AllFlatNone<V>();
        Visit(roots[0].tree, 0, 0);
        nodes := [];
        SampleAt(all, step);
        assert AllFlat(runs) == Sample(all, 0, step);
        FlatCount(runs);
        if |all| >= EXPECTED {
          ManyRuns(|all|, step);
        } else {
          DivUnique(|all|, 1, |all|, 0);
        }
      }
    }
  }

  const EXPECTED: nat := 8192

  lemma ManyRuns(n: nat, step: nat)
    requires n >= 8192 && 0 < step <= n / 8192 + 1
    ensures (n + step - 1) / step >= 4096
  {
    var c := (n + step - 1) / step;
    assert c * step + step > n + step - 1;
    if c < 4096 {
      MulMono(c, 4095, step);
    }
  }

  lemma FirstSlot<V>(roots: seq<Root<V>>)
    requires roots != [] && roots[0].packedn > 0
    ensures Product(Slots(roots)) == Heads(Leaves(roots[0].tree), From(roots, 0, 1))
    ensures Flat<V>([[]]) == [] && Prefixed([], Product(Slots(roots))) == Product(Slots(roots))
  {
    hide Prefixed;
    assert Slots(roots)[1..] == From(roots, 0, 1);
    PrefixedNone(Product(Slots(roots)));
    FlatNone<V>();
  }

  lemma PrefixedNone<V>(all: seq<seq<V>>)
    ensures Prefixed([], all) == all
  {
    assert forall i :: 0 <= i < |all| ==> [] + all[i] == all[i];
  }

  lemma FlatNone<V>()
    ensures Flat<V>([[]]) == []
  {
    PushList<V>([]);
    var none: seq<seq<V>> := [];
    assert none + [[]] == [[]];
  }

  lemma FlatCount<V>(runs: seq<seq<seq<V>>>)
    ensures |AllFlat(runs)| == |runs|
  {
  }

  lemma AllFlatNone<V>()
    ensures AllFlat<V>([]) == []
  {
  }
}
