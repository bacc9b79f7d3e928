// The doubly linked list of generated instructions.

module InsnList {
  import opened ControlProgram

  // `prev` stands for the back link le_prev, the address of the link that points at this entry:
  // null when that link is the list head.
  class Entry {
    const insn: Insn
    var next: Entry?
    var prev: Entry?

    constructor (insn: Insn)
      ensures this.insn == insn && next == null && prev == null
    {
      this.insn := insn;
      next, prev := null, null;
    }
  }

  function Text(nodes: seq<Entry>): (r: seq<Insn>)
    ensures |r| == |nodes|
    ensures forall i :: 0 <= i < |r| ==> r[i] == nodes[i].insn
  {
    seq(|nodes|, i requires 0 <= i < |nodes| => nodes[i].insn)
  }

  lemma TextInsert(nodes: seq<Entry>, k: nat, e: Entry)
    requires k <= |nodes|
    ensures Text(InsertAt(nodes, k, [e])) == InsertAt(Text(nodes), k, [e.insn])
  {
  }

  // The entry at index i, null beyond either end.
  function At(nodes: seq<Entry>, i: int): (e: Entry?)
    ensures e != null <==> 0 <= i < |nodes|
  {
    if 0 <= i < |nodes| then nodes[i] else null
  }

  lemma AtInsert(nodes: seq<Entry>, k: nat, e: Entry, i: int)
    requires k <= |nodes|
    ensures At(InsertAt(nodes, k, [e]), i) == if i < k then At(nodes, i) else if i == k then e else At(nodes, i - 1)
  {
  }

  lemma AtIndex(nodes: seq<Entry>, i: int)
    ensures 0 <= i < |nodes| ==> At(nodes, i) == nodes[i]
  {
  }

  ghost predicate Linked(nodes: seq<Entry>, i: nat)
    requires i < |nodes|
    reads nodes[i]
  {
    nodes[i].next == At(nodes, i + 1) && nodes[i].prev == At(nodes, i - 1)
  }

  predicate Distinct(nodes: seq<Entry>) {
    forall i, j :: 0 <= i < j < |nodes| ==> nodes[i] != nodes[j]
  }

  lemma DistinctInsert(nodes: seq<Entry>, k: nat, e: Entry)
    requires Distinct(nodes) && k <= |nodes| && e !in nodes
    ensures Distinct(InsertAt(nodes, k, [e]))
  {
    var n := InsertAt(nodes, k, [e]);
    forall i, j | 0 <= i < j < |n| ensures n[i] != n[j] {
      assert i != k ==> n[i] == nodes[if i < k then i else i - 1] && n[i] in nodes;
      assert j != k ==> n[j] == nodes[if j < k then j else j - 1] && n[j] in nodes;
    }
  }

  class List {
    var first: Entry?
    var tail: Entry?
    var count: nat
    ghost var nodes: seq<Entry>

    ghost predicate Valid()
      reads this, nodes
    {
      && Distinct(nodes)
      && first == At(nodes, 0)
      && tail == At(nodes, |nodes| - 1)
      && (forall i :: 0 <= i < |nodes| ==> Linked(nodes, i))
      && count == |nodes| % TWO32
    }

    constructor ()
      ensures Valid() && nodes == []
    {
      first, tail, count, nodes := null, null, 0, [];
    }

    // The links of the listed entries once e is linked in at index k.
    ghost predicate Spliced(e: Entry, k: nat)
      reads `first, `nodes, e, nodes
    {
      && k <= |nodes|
      && first == (if k == 0 then e else At(nodes, 0))
      && e.next == At(nodes, k) && e.prev == At(nodes, k - 1)
      && (forall i :: 0 <= i < |nodes| ==> nodes[i].next == if i == k - 1 then e else At(nodes, i + 1))
      && (forall i :: 0 <= i < |nodes| ==> nodes[i].prev == if i == k then e else At(nodes, i - 1))
    }

    // TLIST_INSERT_HEAD
    method LinkHead(e: Entry)
      requires Valid() && e !in nodes
      modifies this`first, e, nodes
      ensures Spliced(e, 0)
    {
      assert nodes != [] ==> nodes[0] in nodes;
      e.next := first;
      if e.next != null {
        first.prev := e;
      }
      first := e;
      e.prev := null;
      forall i | 0 <= i < |nodes|
        ensures nodes[i].next == if i == -1 then e else At(nodes, i + 1)
        ensures nodes[i].prev == if i == 0 then e else At(nodes, i - 1)
      {
        assert old(Linked(nodes, i)) && nodes[i] in nodes;
        assert i != 0 && 0 < |nodes| ==> nodes[i] != nodes[0];
      }
    }

    // TLIST_INSERT_AFTER
    method LinkAfter(pos: Entry, e: Entry, ghost k: nat)
      requires Valid() && e !in nodes && k < |nodes| && nodes[k] == pos
      modifies e, nodes
      ensures Spliced(e, k + 1)
    {
      assert Linked(nodes, k) && pos in nodes;
      e.next := pos.next;
      if e.next != null {
        assert nodes[k + 1] in nodes;
        pos.next.prev := e;
      }
      pos.next := e;
      e.prev := pos;
      forall i | 0 <= i < |nodes|
        ensures nodes[i].next == if i == (k + 1) - 1 then e else At(nodes, i + 1)
        ensures nodes[i].prev == if i == (k + 1) then e else At(nodes, i - 1)
      {
        assert old(Linked(nodes, i)) && nodes[i] in nodes;
        assert i != (k + 1) && (k + 1) < |nodes| ==> nodes[i] != nodes[(k + 1)];
        assert i != (k + 1) - 1 && (k + 1) > 0 ==> nodes[i] != nodes[(k + 1) - 1];
      }
    }

    // TLIST_INSERT_BEFORE
    method LinkBefore(pos: Entry, e: Entry, ghost k: nat)
      requires Valid() && e !in nodes && k < |nodes| && nodes[k] == pos
      modifies this`first, e, nodes
      ensures Spliced(e, k)
    {
      assert Linked(nodes, k) && pos in nodes;
      e.prev := pos.prev;
      e.next := pos;
      if pos.prev == null {
        first := e;
      } else {
        assert nodes[k - 1] in nodes;
        pos.prev.next := e;
      }
      pos.prev := e;
      forall i | 0 <= i < |nodes|
        ensures nodes[i].next == if i == k - 1 then e else At(nodes, i + 1)
        ensures nodes[i].prev == if i == k then e else At(nodes, i - 1)
      {
        assert old(Linked(nodes, i)) && nodes[i] in nodes;
        assert i != k && k < |nodes| ==> nodes[i] != nodes[k];
        assert i != k - 1 && k > 0 ==> nodes[i] != nodes[k - 1];
      }
    }

    // Re-establishes the invariant once e is linked in at index k and `tail` is right.
    ghost method Adopt(e: Entry, k: nat)
      requires Distinct(nodes) && e !in nodes && Spliced(e, k)
      requires tail == (if k == |nodes| then e else At(nodes, |nodes| - 1))
      requires count == (|nodes| + 1) % TWO32
      modifies this`nodes
      ensures Valid() && nodes == InsertAt(old(nodes), k, [e])
    {
      hide InsertAt, Distinct, At;
      DistinctInsert(nodes, k, e);
      var n := InsertAt(nodes, k, [e]);
      forall i | 0 <= i < |n| ensures Linked(n, i) {
        AtInsert(nodes, k, e, i - 1);
        AtInsert(nodes, k, e, i);
        AtInsert(nodes, k, e, i + 1);
        AtIndex(nodes, i);
        AtIndex(nodes, i - 1);
        AtIndex(n, i);
      }
      AtInsert(nodes, k, e, 0);
      AtInsert(nodes, k, e, |nodes|);
      nodes := n;
    }

    lemma Ends()
      requires Valid()
      ensures Distinct(nodes) && tail == At(nodes, |nodes| - 1) && count == |nodes| % TWO32
    {
    }

    lemma EmptyInsert(nodes: seq<Entry>, n: Entry)
      ensures nodes == [] ==> InsertAt(nodes, 0, [n]) == [n]
    {
    }

    // The first entry of an empty list.
    method LinkFirst(n: Entry)
      requires Valid() && tail == null && n !in nodes
      modifies this, n
      ensures Valid() && old(nodes) == [] && nodes == [n]
    {
      hide Spliced, InsertAt;
      assert nodes == [];
      LinkHead(n);
      tail := first;
      count := (count + 1) % TWO32;
      OnlyEntry(n);
      Adopt(n, 0);
    }

    lemma OnlyEntry(n: Entry)
      requires Spliced(n, 0)
      ensures first == n && InsertAt([], 0, [n]) == [n]
    {
    }

    // A null position is accepted only while the list is empty.
    method InsertBefore(pos: Entry?, insn: Insn, ghost k: nat) returns (e: Entry?)
      requires Valid() && (if pos == null then k == 0 else k < |nodes| && nodes[k] == pos)
      modifies this, nodes
      ensures Valid()
      ensures e == null <==> pos == null && old(nodes) != []
      ensures e == null ==> nodes == old(nodes)
      ensures e != null ==> fresh(e) && e.insn == insn && nodes == InsertAt(old(nodes), k, [e as Entry])
    {
      hide Valid, Spliced, Distinct, InsertAt;
      Ends();
      if pos == null && tail != null {
        return null;
      }
      var n := new Entry(insn);
      if pos == null {
        EmptyInsert(nodes, n);
        LinkFirst(n);
      } else {
        LinkBefore(pos, n, k);
        count := (count + 1) % TWO32;
        Adopt(n, k);
      }
      return n;
    }

    method InsertAfter(pos: Entry?, insn: Insn, ghost k: int) returns (e: Entry?)
      requires Valid() && (if pos == null then k == -1 else 0 <= k < |nodes| && nodes[k] == pos)
      modifies this, nodes
      ensures Valid()
      ensures e == null <==> pos == null && old(nodes) != []
      ensures e == null ==> nodes == old(nodes)
      ensures e != null ==> fresh(e) && e.insn == insn && nodes == InsertAt(old(nodes), k + 1, [e as Entry])
    {
      hide Valid, Spliced, Distinct, InsertAt;
      Ends();
      if pos == null && tail != null {
        return null;
      }
      var n := new Entry(insn);
      if pos == null {
        EmptyInsert(nodes, n);
        LinkFirst(n);
      } else {
        LinkAfter(pos, n, k);
        if pos == tail {
          tail := n;
        }
        count := (count + 1) % TWO32;
        Adopt(n, k + 1);
      }
      return n;
    }

    method InsertTail(insn: Insn) returns (e: Entry)
      requires Valid()
      modifies this, nodes
      ensures Valid()
      ensures fresh(e) && e.insn == insn && nodes == InsertAt(old(nodes), |old(nodes)|, [e])
    {
      hide Valid, Spliced, Distinct, InsertAt;
      Ends();
      e := new Entry(insn);
      if tail == null {
        EmptyInsert(nodes, e);
        LinkFirst(e);
      } else {
        LinkAfter(tail, e, |nodes| - 1);
        tail := e;
        count := (count + 1) % TWO32;
        Adopt(e, |nodes|);
      }
    }

    // The forward walk of the output loop visits the entries in list order.
    method Walk() returns (text: seq<Insn>)
      requires Valid()
      ensures text == Text(nodes)
    {
      text := [];
      var entry := first;
      ghost var k := 0;
      while entry != null
        invariant 0 <= k <= |nodes| && text == Text(nodes)[..k]
        invariant entry == At(nodes, k)
        decreases |nodes| - k
      {
        assert Linked(nodes, k);
        text := text + [entry.insn];
        entry := entry.next;
        k := k + 1;
      }
    }
  }
}
