// Lexicographic enumeration of a product, and regular samples of it.

module Combinations {
  import opened Arithmetic

  // Every way to pick one element per slot, the last slot running fastest.
  function Product<V>(slots: seq<seq<V>>): seq<seq<V>>
    decreases |slots|, 1, 0
  {
    if slots == [] then [[]] else Heads(slots[0], slots[1..])
  }

  // One head after the other, each before every pick from the other slots.
  function Heads<V>(heads: seq<V>, rest: seq<seq<V>>): seq<seq<V>>
    decreases |rest| + 1, 0, |heads|
  {
    if heads == [] then []
    else Heads(heads[..|heads| - 1], rest) + Prefixed([heads[|heads| - 1]], Product(rest))
  }

  function Prefixed<V>(prefix: seq<V>, all: seq<seq<V>>): (r: seq<seq<V>>)
    ensures |r| == |all| && forall i :: 0 <= i < |r| ==> r[i] == prefix + all[i]
  {
    seq(|all|, i requires 0 <= i < |all| => prefix + all[i])
  }

  function Count<V>(slots: seq<seq<V>>): nat {
    if slots == [] then 1
    else
      MulMono(0, |slots[0]|, Count(slots[1..]));
      |slots[0]| * Count(slots[1..])
  }

  lemma {:induction false} HeadsCount<V>(heads: seq<V>, rest: seq<seq<V>>)
    ensures |Heads(heads, rest)| == |heads| * |Product(rest)|
    decreases |heads|
  {
    if heads != [] {
      HeadsCount(heads[..|heads| - 1], rest);
      NextMultiple(|heads| - 1, |Product(rest)|);
    }
  }

  lemma {:induction false} ProductCount<V>(slots: seq<seq<V>>)
    ensures |Product(slots)| == Count(slots)
  {
    if slots != [] {
      ProductCount(slots[1..]);
      HeadsCount(slots[0], slots[1..]);
    }
  }

  // A choice of one index per slot, and its place in the order.
  ghost predicate Choice<V>(slots: seq<seq<V>>, c: seq<nat>) {
    |c| == |slots| && forall k :: 0 <= k < |c| ==> c[k] < |slots[k]|
  }

  function Rank<V>(slots: seq<seq<V>>, c: seq<nat>): nat
    requires |c| == |slots|
  {
    if c == [] then 0
    else
      MulMono(0, c[0], Count(slots[1..]));
      c[0] * Count(slots[1..]) + Rank(slots[1..], c[1..])
  }

  function Pick<V>(slots: seq<seq<V>>, c: seq<nat>): (r: seq<V>)
    requires |c| == |slots| && forall k :: 0 <= k < |c| ==> c[k] < |slots[k]|
    ensures |r| == |c|
  {
    if c == [] then [] else [slots[0][c[0]]] + Pick(slots[1..], c[1..])
  }

  lemma {:induction false} HeadsAt<V>(heads: seq<V>, rest: seq<seq<V>>, h: nat, r: nat)
    requires h < |heads| && r < |Product(rest)|
    ensures 0 <= h * |Product(rest)| + r < |Heads(heads, rest)|
    ensures Heads(heads, rest)[h * |Product(rest)| + r] == [heads[h]] + Product(rest)[r]
    decreases |heads|
  {
    var n := |Product(rest)|;
    MulMono(0, h, n);
    HeadsCount(heads, rest);
    HeadsCount(heads[..|heads| - 1], rest);
    BoundStep(h, |heads|, r, n);
    if h < |heads| - 1 {
      HeadsAt(heads[..|heads| - 1], rest, h, r);
    }
  }

  // Every choice stands at its rank: none is missing, and the order is that of the ranks.
  lemma {:induction false} ProductAt<V>(slots: seq<seq<V>>, c: seq<nat>)
    requires Choice(slots, c)
    ensures Rank(slots, c) < |Product(slots)| && Product(slots)[Rank(slots, c)] == Pick(slots, c)
  {
    if c != [] {
      ProductAt(slots[1..], c[1..]);
      ProductCount(slots[1..]);
      HeadsAt(slots[0], slots[1..], c[0], Rank(slots[1..], c[1..]));
    }
  }

  // Every place belongs to one choice only.
  lemma {:induction false} RankUnique<V>(slots: seq<seq<V>>, i: nat) returns (c: seq<nat>)
    requires i < |Product(slots)|
    ensures Choice(slots, c) && Rank(slots, c) == i
    ensures forall d: seq<nat> :: Choice(slots, d) && Rank(slots, d) == i ==> d == c
  {
    hide Product, Rank, Count;
    ProductCount(slots);
    if slots == [] {
      c := [];
      OnlyChoice<V>();
    } else {
      var n := Count(slots[1..]);
      ProductCount(slots[1..]);
      CountParts(slots);
      PositiveFactor(|slots[0]|, n, i);
      var h, r := i / n, i % n;
      QuotientBelow(i, n, |slots[0]|);
      var t := RankUnique(slots[1..], r);
      c := [h] + t;
      assert c[1..] == t;
      ChoiceOf(slots, h, t);
      forall d: seq<nat> | Choice(slots, d) && Rank(slots, d) == i ensures d == c {
        RankParts(slots, d, i);
        assert d == [d[0]] + d[1..];
      }
    }
  }

  lemma OnlyChoice<V>()
    ensures Choice<V>([], []) && Rank<V>([], []) == 0 && Count<V>([]) == 1
    ensures forall d: seq<nat> :: Choice<V>([], d) ==> d == []
  {
  }

  lemma CountParts<V>(slots: seq<seq<V>>)
    requires slots != []
    ensures Count(slots) == |slots[0]| * Count(slots[1..])
  {
  }

  lemma ChoiceOf<V>(slots: seq<seq<V>>, h: nat, t: seq<nat>)
    requires slots != [] && h < |slots[0]| && Choice(slots[1..], t)
    ensures Choice(slots, [h] + t) && Rank(slots, [h] + t) == h * Count(slots[1..]) + Rank(slots[1..], t)
  {
    var c := [h] + t;
    assert c[1..] == t;
    forall k | 0 <= k < |c| ensures c[k] < |slots[k]| {
      if k > 0 {
        assert c[k] == t[k - 1] && slots[k] == slots[1..][k - 1];
      }
    }
  }

  lemma RankParts<V>(slots: seq<seq<V>>, d: seq<nat>, i: nat)
    requires slots != [] && Choice(slots, d) && Rank(slots, d) == i
    ensures Choice(slots[1..], d[1..]) && Count(slots[1..]) > 0
    ensures d[0] == i / Count(slots[1..]) && Rank(slots[1..], d[1..]) == i % Count(slots[1..])
  {
    RankBelow(slots[1..], d[1..]);
    DivUnique(i, Count(slots[1..]), d[0], Rank(slots[1..], d[1..]));
  }

  lemma PositiveFactor(a: nat, n: nat, i: nat)
    requires i < a * n
    ensures n > 0
  {
  }

  lemma QuotientBelow(i: nat, n: nat, a: nat)
    requires n > 0 && i < a * n
    ensures 0 <= i / n < a
  {
    if i / n >= a {
      MulMono(a, i / n, n);
    }
  }

  lemma RankBelow<V>(slots: seq<seq<V>>, c: seq<nat>)
    requires Choice(slots, c)
    ensures Rank(slots, c) < Count(slots)
  {
    ProductAt(slots, c);
    ProductCount(slots);
  }

  // Smaller in the first index that differs is earlier.
  lemma {:induction false} RankOrder<V>(slots: seq<seq<V>>, c: seq<nat>, d: seq<nat>, k: nat)
    requires Choice(slots, c) && Choice(slots, d) && k < |c| && c[..k] == d[..k] && c[k] < d[k]
    ensures Rank(slots, c) < Rank(slots, d)
  {
    var n := Count(slots[1..]);
    if k > 0 {
      assert c[0] == c[..k][0] == d[..k][0] == d[0];
      assert c[1..][..k - 1] == c[..k][1..] && d[1..][..k - 1] == d[..k][1..];
      RankOrder(slots[1..], c[1..], d[1..], k - 1);
    } else {
      RankBelow(slots[1..], c[1..]);
      BoundStep(c[0], d[0], Rank(slots[1..], c[1..]), n);
      MulMono(0, d[0], n);
    }
  }
}
