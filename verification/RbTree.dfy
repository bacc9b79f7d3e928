// The threaded red-black tree over heap nodes.

module RbTree {

  class Node {
    const key: nat
    var left: Node?
    var right: Node?
    var black: bool
    var pred: bool
    var succ: bool

    constructor (key: nat)
      ensures this.key == key
    {
      this.key := key;
      left, right := null, null;
      black, pred, succ := false, false, false;
    }
  }

  // The tree that real children form.
  datatype Shape = Leaf | Fork(left: Shape, node: Node, right: Shape)

  ghost function InOrder(s: Shape): seq<Node> {
    match s
    case Leaf => []
    case Fork(l, n, r) => InOrder(l) + [n] + InOrder(r)
  }

  ghost function Nodes(s: Shape): set<Node> {
    match s
    case Leaf => {}
    case Fork(l, n, r) => Nodes(l) + {n} + Nodes(r)
  }

  ghost predicate Distinct(s: Shape) {
    match s
    case Leaf => true
    case Fork(l, n, r) => Distinct(l) && Distinct(r) && n !in Nodes(l) && n !in Nodes(r) && Nodes(l) !! Nodes(r)
  }

  // h is the root of shape s, and missing children are threads: to lo and hi at the two ends, to the nearest
  // ancestor on that side elsewhere.
  ghost predicate Tree(h: Node?, s: Shape, lo: Node?, hi: Node?)
    reads Nodes(s)
    decreases s
  {
    match s
    case Leaf => false
    case Fork(l, n, r) =>
      && h == n
      && (if l.Leaf? then n.pred && n.left == lo else !n.pred && Tree(n.left, l, lo, n))
      && (if r.Leaf? then n.succ && n.right == hi else !n.succ && Tree(n.right, r, n, hi))
  }

  ghost predicate Sorted(q: seq<Node>) {
    forall i, j :: 0 <= i < j < |q| ==> q[i].key <= q[j].key
  }

  lemma {:induction false} InOrderNode(s: Shape, n: Node)
    ensures n in InOrder(s) <==> n in Nodes(s)
  {
    if s.Fork? {
      InOrderNode(s.left, n);
      InOrderNode(s.right, n);
    }
  }

  lemma Allocated(nodes: set<Node>)
    ensures forall n :: n in nodes ==> allocated(n)
  {
  }

  lemma SameOrder(a: Shape, m: Node, b: Shape, n: Node, c: Shape)
    ensures InOrder(Fork(Fork(a, m, b), n, c)) == InOrder(Fork(a, m, Fork(b, n, c)))
  {
  }

  // Rotations and colour flips: colours do not matter to the tree, and the order of the nodes stays.
  method RotateLeft(h: Node, ghost s: Shape, ghost lo: Node?, ghost hi: Node?) returns (x: Node, ghost t: Shape)
    requires Tree(h, s, lo, hi) && Distinct(s) && !h.succ
    modifies Nodes(s)
    ensures Tree(x, t, lo, hi) && Distinct(t) && InOrder(t) == InOrder(s) && Nodes(t) == Nodes(s)
  {
    hide InOrder;
    x := h.right;
    ghost var b, c := s.right.left, s.right.right;
    t := Fork(Fork(s.left, h, b), x, c);
    SameOrder(s.left, h, b, x, c);
    var hb, xp := h.black, x.pred;
    if xp {
      h.right := x;
      h.black, h.succ := false, true;
    } else {
      h.right := x.left;
      h.black, h.succ := false, false;
    }
    x.black, x.pred := hb, false;
    x.left := h;
  }

  method RotateRight(h: Node, ghost s: Shape, ghost lo: Node?, ghost hi: Node?) returns (x: Node, ghost t: Shape)
    requires Tree(h, s, lo, hi) && Distinct(s) && !h.pred
    modifies Nodes(s)
    ensures Tree(x, t, lo, hi) && Distinct(t) && InOrder(t) == InOrder(s) && Nodes(t) == Nodes(s)
  {
    hide InOrder;
    x := h.left;
    ghost var a, b := s.left.left, s.left.right;
    t := Fork(a, x, Fork(b, h, s.right));
    SameOrder(a, x, b, h, s.right);
    var hb, xs := h.black, x.succ;
    if xs {
      h.left := x;
      h.black, h.pred := false, true;
    } else {
      h.left := x.right;
      h.black, h.pred := false, false;
    }
    x.black, x.succ := hb, false;
    x.right := h;
  }

  method ColorFlip(h: Node, ghost s: Shape, ghost lo: Node?, ghost hi: Node?)
    requires Tree(h, s, lo, hi) && Distinct(s) && !h.pred && !h.succ
    modifies Nodes(s)
    ensures Tree(h, s, lo, hi)
  {
    h.black := !h.black;
    h.left.black := !h.left.black;
    h.right.black := !h.right.black;
  }

  // The order that insertion gives: behind all keys that are not greater.
  ghost function Inserted(q: seq<Node>, n: Node): seq<Node> {
    if q == [] then [n]
    else if n.key < q[0].key then [n] + q
    else [q[0]] + Inserted(q[1..], n)
  }

  lemma {:induction false} InsertedLeft(a: seq<Node>, m: Node, b: seq<Node>, n: Node)
    requires n.key < m.key
    ensures Inserted(a + [m] + b, n) == Inserted(a, n) + [m] + b
  {
    var q := a + [m] + b;
    if a == [] {
      assert q == [m] + b;
    } else if n.key >= a[0].key {
      InsertedLeft(a[1..], m, b, n);
      assert q[1..] == a[1..] + [m] + b;
    }
  }

  lemma {:induction false} InsertedRight(a: seq<Node>, m: Node, b: seq<Node>, n: Node)
    requires Sorted(a + [m] + b) && m.key <= n.key
    ensures Inserted(a + [m] + b, n) == a + [m] + Inserted(b, n)
  {
    var q := a + [m] + b;
    assert q[0].key <= q[|a|].key;
    if a == [] {
      assert q == [m] + b && q[1..] == b;
    } else {
      assert q[1..] == a[1..] + [m] + b;
      InsertedRight(a[1..], m, b, n);
    }
  }

  ghost predicate AtLeast(q: seq<Node>, k: nat) {
    forall i :: 0 <= i < |q| ==> k <= q[i].key
  }

  lemma SortedHead(q: seq<Node>)
    requires q != []
    ensures Sorted(q) <==> Sorted(q[1..]) && AtLeast(q[1..], q[0].key)
  {
    if Sorted(q[1..]) && AtLeast(q[1..], q[0].key) {
      forall i, j | 0 <= i < j < |q| ensures q[i].key <= q[j].key {
        assert q[j] == q[1..][j - 1];
        if i > 0 {
          assert q[i] == q[1..][i - 1];
        }
      }
    }
  }

  lemma {:induction false} InsertedAtLeast(q: seq<Node>, n: Node, k: nat)
    requires AtLeast(q, k) && k <= n.key
    ensures AtLeast(Inserted(q, n), k)
  {
    if q != [] && n.key >= q[0].key {
      InsertedAtLeast(q[1..], n, k);
    }
  }

  // Insertion keeps the order and adds one node.
  lemma {:induction false} InsertedSorted(q: seq<Node>, n: Node)
    requires Sorted(q)
    ensures Sorted(Inserted(q, n)) && multiset(Inserted(q, n)) == multiset(q) + multiset{n}
  {
    hide Sorted;
    var t := Inserted(q, n);
    SortedHead(t);
    if q == [] {
      SortedNone();
    } else {
      SortedHead(q);
      assert q == [q[0]] + q[1..];
      if n.key < q[0].key {
        assert t[1..] == q;
      } else {
        InsertedSorted(q[1..], n);
        InsertedAtLeast(q[1..], n, q[0].key);
        assert t[1..] == Inserted(q[1..], n);
      }
    }
  }

  lemma SortedNone()
    ensures Sorted([])
  {
  }

  lemma SortedParts(s: Shape)
    requires s.Fork? && Sorted(InOrder(s))
    ensures Sorted(InOrder(s.left)) && Sorted(InOrder(s.right))
  {
    var q, k := InOrder(s), |InOrder(s.left)|;
    assert InOrder(s.left) == q[..k] && InOrder(s.right) == q[k + 1..];
  }

  lemma InsertedFork(s: Shape, n: Node)
    requires s.Fork? && Sorted(InOrder(s))
    ensures
      Inserted(InOrder(s), n) ==
      if n.key < s.node.key then Inserted(InOrder(s.left), n) + [s.node] + InOrder(s.right)
      else InOrder(s.left) + [s.node] + Inserted(InOrder(s.right), n)
  {
    if n.key < s.node.key {
      InsertedLeft(InOrder(s.left), s.node, InOrder(s.right), n);
    } else {
      InsertedRight(InOrder(s.left), s.node, InOrder(s.right), n);
    }
  }

  lemma Children(h: Node, s: Shape, lo: Node?, hi: Node?)
    requires Tree(h, s, lo, hi)
    ensures !h.pred ==>
              s.left.Fork? && h.left == s.left.node && h.left != null && (!h.left.pred ==> h.left.left != null)
    ensures !h.succ ==> s.right.Fork? && h.right == s.right.node && h.right != null
  {
  }

  // The recursive part: the new node is linked where the search for its key ends, and the way back rotates.
  method InsertInto(tree: Node, node: Node, ghost s: Shape, ghost lo: Node?, ghost hi: Node?)
    returns (root: Node, ghost t: Shape)
    requires Tree(tree, s, lo, hi) && Distinct(s) && Sorted(InOrder(s))
    requires node !in Nodes(s) && node.pred && node.succ
    modifies Nodes(s), node
    ensures Tree(root, t, lo, hi) && Distinct(t) && Nodes(t) == Nodes(s) + {node}
    ensures InOrder(t) == Inserted(InOrder(s), node)
    decreases s, 1
  {
    hide Sorted, Inserted, InOrder, Tree, Distinct;
    Children(tree, s, lo, hi);
    if !tree.pred && !tree.succ && !(tree.left.black && tree.right.black) {
      ColorFlip(tree, s, lo, hi);
    }
    SameRoot(tree, s, lo, hi);
    SortedParts(s);
    InsertedFork(s, node);
    if node.key < tree.key {
      t := InsertLeft(tree, node, s, lo, hi);
    } else {
      t := InsertRight(tree, node, s, lo, hi);
    }
    root := tree;
    Children(root, t, lo, hi);
    if !root.succ && !root.right.black {
      root, t := RotateLeft(root, t, lo, hi);
    }
    Children(root, t, lo, hi);
    if !root.pred && !root.left.black && !root.left.pred && !root.left.left.black {
      root, t := RotateRight(root, t, lo, hi);
    }
  }

  lemma SameRoot(h: Node, s: Shape, lo: Node?, hi: Node?)
    requires Tree(h, s, lo, hi)
    ensures s.Fork? && s.node == h
  {
  }

  lemma OrderOf(a: Shape, n: Node, b: Shape)
    ensures InOrder(Fork(a, n, b)) == InOrder(a) + [n] + InOrder(b)
  {
  }

  lemma OrderOfOne(n: Node)
    ensures InOrder(Fork(Leaf, n, Leaf)) == Inserted(InOrder(Leaf), n)
    ensures Nodes(Fork(Leaf, n, Leaf)) == {n}
  {
  }

  method InsertLeft(tree: Node, node: Node, ghost s: Shape, ghost lo: Node?, ghost hi: Node?)
    returns (ghost t: Shape)
    requires Tree(tree, s, lo, hi) && Distinct(s) && Sorted(InOrder(s.left))
    requires node !in Nodes(s) && node.pred && node.succ
    modifies Nodes(s), node
    ensures Tree(tree, t, lo, hi)
    ensures Distinct(t)
    ensures Nodes(t) == Nodes(s) + {node}
    ensures InOrder(t) == Inserted(InOrder(s.left), node) + [tree] + InOrder(s.right)
    decreases s, 0
  {
    hide Sorted, Inserted, InOrder;
    Allocated(Nodes(s));
    OrderOfOne(node);
    node.right := tree;
    ghost var l: Shape;
    if tree.pred {
      node.left := tree.left;
      tree.pred := false;
      tree.left := node;
      l := Fork(Leaf, node, Leaf);
    } else {
      var child;
      child, l := InsertInto(tree.left, node, s.left, lo, tree);
      NonEmpty(child, l, lo, tree);
      tree.left := child;
    }
    t := Fork(l, tree, s.right);
    OrderOf(l, tree, s.right);
    assert Tree(tree.left, l, lo, tree);
    assert s.right.Fork? ==> Tree(tree.right, s.right, tree, hi);
  }

  lemma NonEmpty(h: Node, s: Shape, lo: Node?, hi: Node?)
    requires Tree(h, s, lo, hi)
    ensures s.Fork?
  {
  }

  method InsertRight(tree: Node, node: Node, ghost s: Shape, ghost lo: Node?, ghost hi: Node?)
    returns (ghost t: Shape)
    requires Tree(tree, s, lo, hi) && Distinct(s) && Sorted(InOrder(s.right))
    requires node !in Nodes(s) && node.pred && node.succ
    modifies Nodes(s), node
    ensures Tree(tree, t, lo, hi)
    ensures Distinct(t)
    ensures Nodes(t) == Nodes(s) + {node}
    ensures InOrder(t) == InOrder(s.left) + [tree] + Inserted(InOrder(s.right), node)
    decreases s, 0
  {
    hide Sorted, Inserted, InOrder;
    Allocated(Nodes(s));
    OrderOfOne(node);
    node.left := tree;
    ghost var r: Shape;
    if tree.succ {
      node.right := tree.right;
      tree.succ := false;
      tree.right := node;
      r := Fork(Leaf, node, Leaf);
    } else {
      var child;
      child, r := InsertInto(tree.right, node, s.right, tree, hi);
      NonEmpty(child, r, tree, hi);
      tree.right := child;
    }
    t := Fork(s.left, tree, r);
    OrderOf(s.left, tree, r);
    assert Tree(tree.right, r, tree, hi);
    assert s.left.Fork? ==> Tree(tree.left, s.left, lo, tree);
  }

  ghost predicate WellFormed(h: Node?, s: Shape)
    reads Nodes(s)
  {
    && Distinct(s) && Sorted(InOrder(s))
    && if s.Leaf? then h == null else h != null && Tree(h, s, null, null)
  }

  method Insert(tree: Node?, node: Node, ghost s: Shape) returns (root: Node, ghost t: Shape)
    requires WellFormed(tree, s) && node !in Nodes(s)
    modifies Nodes(s), node
    ensures WellFormed(root, t) && Nodes(t) == Nodes(s) + {node}
    ensures InOrder(t) == Inserted(InOrder(s), node)
  {
    hide Sorted, Inserted, InOrder;
    InsertedSorted(InOrder(s), node);
    OrderOfOne(node);
    Allocated(Nodes(s));
    node.left, node.right := null, null;
    node.black, node.pred, node.succ := false, true, true;
    if tree == null {
      root, t := node, Fork(Leaf, node, Leaf);
    } else {
      root, t := InsertInto(tree, node, s, null, null);
      NonEmpty(root, t, null, null);
    }
  }

  // The new node stands behind all keys that are not greater, in particular behind all equal ones.
  lemma {:induction false} InsertedPosition(q: seq<Node>, n: Node) returns (k: nat)
    requires Sorted(q)
    ensures k <= |q| && Inserted(q, n) == q[..k] + [n] + q[k..]
    ensures forall i :: 0 <= i < k ==> q[i].key <= n.key
    ensures forall i :: k <= i < |q| ==> n.key < q[i].key
  {
    if q == [] || n.key < q[0].key {
      k := 0;
    } else {
      SortedHead(q);
      k := InsertedPosition(q[1..], n);
      k := k + 1;
      assert q[..k] == [q[0]] + q[1..][..k - 1] && q[k..] == q[1..][k - 1..];
      forall i | 0 <= i < |q| ensures if i < k then q[i].key <= n.key else n.key < q[i].key {
        if i > 0 {
          assert q[i] == q[1..][i - 1];
        }
      }
    }
  }

  // Every thread leads to the neighbour in order, to lo and hi at the ends.
  lemma {:induction false} ThreadsLeadToNeighbours(h: Node, s: Shape, lo: Node?, hi: Node?, i: nat)
    requires Tree(h, s, lo, hi) && i < |InOrder(s)|
    ensures
      var q := InOrder(s);
      && (q[i].pred ==> q[i].left == if i == 0 then lo else q[i - 1])
      && (q[i].succ ==> q[i].right == if i == |q| - 1 then hi else q[i + 1])
  {
    var q, k := InOrder(s), |InOrder(s.left)|;
    if i < k {
      ThreadsLeadToNeighbours(h.left, s.left, lo, h, i);
    } else if i > k {
      ThreadsLeadToNeighbours(h.right, s.right, h, hi, i - k - 1);
    } else {
      if s.left.Leaf? {
        assert k == 0;
      }
      if s.right.Leaf? {
        assert k == |q| - 1;
      }
    }
  }

  // Behind a real right link lies a tree with the nodes that follow.
  lemma {:induction false} RightTree(h: Node, s: Shape, lo: Node?, hi: Node?, i: nat) returns (t: Shape, end: Node?)
    requires Tree(h, s, lo, hi) && i < |InOrder(s)| && !InOrder(s)[i].succ
    ensures InOrder(s)[i].right != null && Tree(InOrder(s)[i].right, t, InOrder(s)[i], end)
    ensures i + 1 + |InOrder(t)| <= |InOrder(s)| && InOrder(s)[i + 1..i + 1 + |InOrder(t)|] == InOrder(t)
  {
    hide InOrder;
    var q := InOrder(s);
    assert q[0..|q|] == q;
    var k := SplitOrder(q, 0, |q|, h, s, lo, hi);
    Halves(h, s, lo, hi);
    if i < k {
      assert q[i] == q[0..k][i];
      t, end := RightTree(h.left, s.left, lo, h, i);
      SubSlice(q, 0, k, i + 1, i + 1 + |InOrder(t)|);
    } else if i > k {
      var j := i - k - 1;
      assert q[i] == q[k + 1..][j];
      t, end := RightTree(h.right, s.right, h, hi, j);
      SubSlice(q, k + 1, |q|, j + 1, j + 1 + |InOrder(t)|);
    } else {
      t, end := s.right, hi;
    }
  }

  lemma {:induction false} LeftTree(h: Node, s: Shape, lo: Node?, hi: Node?, i: nat) returns (t: Shape, end: Node?)
    requires Tree(h, s, lo, hi) && i < |InOrder(s)| && !InOrder(s)[i].pred
    ensures InOrder(s)[i].left != null && Tree(InOrder(s)[i].left, t, end, InOrder(s)[i])
    ensures |InOrder(t)| <= i && InOrder(s)[i - |InOrder(t)|..i] == InOrder(t)
  {
    hide InOrder;
    var q := InOrder(s);
    assert q[0..|q|] == q;
    var k := SplitOrder(q, 0, |q|, h, s, lo, hi);
    Halves(h, s, lo, hi);
    if i < k {
      assert q[i] == q[0..k][i];
      t, end := LeftTree(h.left, s.left, lo, h, i);
      SubSlice(q, 0, k, i - |InOrder(t)|, i);
    } else if i > k {
      var j := i - k - 1;
      assert q[i] == q[k + 1..][j];
      t, end := LeftTree(h.right, s.right, h, hi, j);
      SubSlice(q, k + 1, |q|, j - |InOrder(t)|, j);
    } else {
      t, end := s.left, lo;
    }
  }

  lemma SubSlice(q: seq<Node>, a: nat, b: nat, x: nat, y: nat)
    requires a <= b <= |q| && x <= y <= b - a
    ensures q[a..b][x..y] == q[a + x..a + y]
  {
    var l, r := q[a..b][x..y], q[a + x..a + y];
    assert |l| == |r| && forall i :: 0 <= i < |l| ==> l[i] == r[i];
  }

  lemma OrderPositive(h: Node, s: Shape, lo: Node?, hi: Node?)
    requires Tree(h, s, lo, hi)
    ensures InOrder(s) != []
  {
  }

  method First(tree: Node?, ghost s: Shape, ghost lo: Node?, ghost hi: Node?) returns (n: Node?)
    requires if tree == null then s.Leaf? else Tree(tree, s, lo, hi)
    ensures if InOrder(s) == [] then n == null else n == InOrder(s)[0]
  {
    if tree == null {
      return null;
    }
    OrderPositive(tree, s, lo, hi);
    ghost var c, end := s, hi;
    n := tree;
    while !n.pred
      invariant n != null && Tree(n, c, lo, end) && InOrder(c) != [] && InOrder(c)[0] == InOrder(s)[0]
      decreases c
    {
      OrderPositive(n.left, c.left, lo, n);
      n, c, end := n.left, c.left, n;
    }
  }

  method Last(tree: Node?, ghost s: Shape, ghost lo: Node?, ghost hi: Node?) returns (n: Node?)
    requires if tree == null then s.Leaf? else Tree(tree, s, lo, hi)
    ensures if InOrder(s) == [] then n == null else n == InOrder(s)[|InOrder(s)| - 1]
  {
    if tree == null {
      return null;
    }
    OrderPositive(tree, s, lo, hi);
    ghost var c, end := s, lo;
    n := tree;
    while !n.succ
      invariant n != null && Tree(n, c, end, hi)
      invariant InOrder(c) != [] && InOrder(c)[|InOrder(c)| - 1] == InOrder(s)[|InOrder(s)| - 1]
      decreases c
    {
      OrderPositive(n.right, c.right, n, hi);
      n, c, end := n.right, c.right, n;
    }
  }

  // The neighbours of a node of the tree, null at the ends.
  method Next(node: Node, ghost h: Node, ghost s: Shape, ghost i: nat) returns (n: Node?)
    requires Tree(h, s, null, null) && i < |InOrder(s)| && node == InOrder(s)[i]
    ensures n == if i == |InOrder(s)| - 1 then null else InOrder(s)[i + 1]
  {
    hide InOrder, Tree;
    var np := node.right;
    if node.succ {
      ThreadsLeadToNeighbours(h, s, null, null, i);
      n := np;
    } else {
      ghost var t, end := RightTree(h, s, null, null, i);
      OrderPositive(np, t, node, end);
      n := First(np, t, node, end);
      assert InOrder(t)[0] == InOrder(s)[i + 1..i + 1 + |InOrder(t)|][0];
    }
  }

  method Prev(node: Node, ghost h: Node, ghost s: Shape, ghost i: nat) returns (n: Node?)
    requires Tree(h, s, null, null) && i < |InOrder(s)| && node == InOrder(s)[i]
    ensures n == if i == 0 then null else InOrder(s)[i - 1]
  {
    hide InOrder, Tree;
    var np := node.left;
    if node.pred {
      ThreadsLeadToNeighbours(h, s, null, null, i);
      n := np;
    } else {
      ghost var t, end := LeftTree(h, s, null, null, i);
      OrderPositive(np, t, end, node);
      n := Last(np, t, end, node);
      assert InOrder(t)[|InOrder(t)| - 1] == InOrder(s)[i - |InOrder(t)|..i][|InOrder(t)| - 1];
    }
  }

  // Starting at the first node and going on to the next one visits all nodes, each once, in order.
  method Enumerate(tree: Node?, ghost s: Shape) returns (all: seq<Node>)
    requires WellFormed(tree, s)
    ensures all == InOrder(s)
  {
    hide InOrder, Tree, Sorted, Distinct;
    Allocated(Nodes(s));
    all := [];
    if tree == null {
      LeafOrder();
    }
    var n := First(tree, s, null, null);
    while n != null
      invariant all <= InOrder(s) && if tree == null then InOrder(s) == [] else Tree(tree, s, null, null)
      invariant n == if |all| == |InOrder(s)| then null else InOrder(s)[|all|]
      decreases |InOrder(s)| - |all|
    {
      ghost var i := |all|;
      all := all + [n];
      n := Next(n, tree, s, i);
    }
  }

  lemma LeafOrder()
    ensures InOrder(Leaf) == []
  {
  }

  // The node with the greatest key that is not above the given one.
  method Search(tree: Node?, key: nat, ghost s: Shape) returns (best: Node?)
    requires WellFormed(tree, s)
    ensures best == null ==> forall i :: 0 <= i < |InOrder(s)| ==> InOrder(s)[i].key > key
    ensures best != null ==> best in InOrder(s) && best.key <= key
    ensures best != null ==>
              forall i :: 0 <= i < |InOrder(s)| && InOrder(s)[i].key <= key ==> InOrder(s)[i].key <= best.key
  {
    hide InOrder, Tree, Sorted, Distinct;
    best := null;
    if tree == null {
      LeafOrder();
      return;
    }
    var t: Node := tree;
    ghost var q, c, lo, hi, a, b := InOrder(s), s, null, null, 0, |InOrder(s)|;
    assert q[..] == q[a..b];
    while true
      invariant Tree(t, c, lo, hi) && 0 <= a <= b <= |q| && q[a..b] == InOrder(c)
      invariant b < |q| ==> q[b].key > key
      invariant if best == null then a == 0 else a > 0 && best == q[a - 1] && best.key <= key
      decreases c
    {
      ghost var k := SplitOrder(q, a, b, t, c, lo, hi);
      Children(t, c, lo, hi);
      SameRoot(t, c, lo, hi);
      Halves(t, c, lo, hi);
      if t.key > key {
        b := k;
        if t.pred {
          break;
        }
        t, c, hi := t.left, c.left, t;
      } else {
        best := t;
        a := k + 1;
        if t.key == key || t.succ {
          break;
        }
        t, c, lo := t.right, c.right, t;
      }
    }
    Greatest(q, a, b, key);
  }

  lemma Halves(h: Node, s: Shape, lo: Node?, hi: Node?)
    requires Tree(h, s, lo, hi)
    ensures if h.pred then InOrder(s.left) == [] else Tree(h.left, s.left, lo, h)
    ensures if h.succ then InOrder(s.right) == [] else Tree(h.right, s.right, h, hi)
  {
  }

  lemma SplitOrder(q: seq<Node>, a: nat, b: nat, h: Node, s: Shape, lo: Node?, hi: Node?) returns (k: nat)
    requires a <= b <= |q| && Tree(h, s, lo, hi) && q[a..b] == InOrder(s)
    ensures a <= k < b && q[k] == h && q[a..k] == InOrder(s.left) && q[k + 1..b] == InOrder(s.right)
  {
    var n := |InOrder(s.left)|;
    k := a + n;
    assert q[k] == q[a..b][n];
    assert q[a..k] == q[a..b][..n];
    assert q[k + 1..b] == q[a..b][n + 1..];
  }

  // Everything from b on is above the key, and what lies between a and b is not above the last node before a.
  lemma Greatest(q: seq<Node>, a: nat, b: nat, key: nat)
    requires Sorted(q) && a <= b <= |q| && (b < |q| ==> q[b].key > key)
    requires a < b ==> a > 0 && q[a - 1].key == key
    ensures forall i :: 0 <= i < |q| && q[i].key <= key ==> a > 0 && q[i].key <= q[a - 1].key
  {
  }
}
