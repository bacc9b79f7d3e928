// The double-hashing dictionary of nasmlib/hashtbl.c.

module HashTable {
  import opened Common
  import opened Arithmetic
  import opened HashProbe

  type Key = seq<nat>

  datatype Slot<D> = Empty | Entry(hash: hash64, key: Key, data: D)

  // What a failed search leaves for the insertion.
  datatype HashInsert = HashInsert(hash: hash64, key: Key, pos: Option<nat>)

  function Count<D>(t: seq<Slot<D>>): (n: nat)
    ensures n <= |t|
  {
    if t == [] then 0 else Count(t[..|t| - 1]) + if t[|t| - 1].Entry? then 1 else 0
  }

  lemma {:induction false} CountUpdate<D>(t: seq<Slot<D>>, i: nat, s: Slot<D>)
    requires i < |t| && t[i].Empty? && s.Entry?
    ensures Count(t[i := s]) == Count(t) + 1
  {
    var n := |t| - 1;
    if i < n {
      CountUpdate(t[..n], i, s);
      assert t[i := s][..n] == t[..n][i := s];
    } else {
      assert t[i := s][..n] == t[..n];
    }
  }

  lemma {:induction false} CountFull<D>(t: seq<Slot<D>>)
    ensures (forall i :: 0 <= i < |t| ==> t[i].Entry?) ==> Count(t) == |t|
    ensures (forall i :: 0 <= i < |t| ==> t[i].Empty?) ==> Count(t) == 0
  {
    if t != [] {
      CountFull(t[..|t| - 1]);
    }
  }

  // The first n slots of the probe sequence are in use.
  ghost predicate Busy<D>(t: seq<Slot<D>>, h: hash64, n: nat)
    requires |t| > 0
  {
    forall l :: 0 <= l < n ==> t[Pos(h, |t|, l)].Entry?
  }

  // Slot i is where the search for hash h arrives after slots in use.
  ghost predicate Chained<D>(t: seq<Slot<D>>, h: hash64, i: nat)
    requires |t| > 0
  {
    exists j: nat :: Pos(h, |t|, j) == i && Busy(t, h, j)
  }

  ghost predicate Size(n: nat) {
    exists k: nat :: k > 0 && n == Pow2(k)
  }

  // Every entry is at the end of a chain of its hash, and no two have the same key.
  ghost predicate Placed<D>(t: seq<Slot<D>>, hash: Key -> hash64) {
    && Size(|t|) && |t| > 0
    && (forall i :: 0 <= i < |t| && t[i].Entry? ==> t[i].hash == hash(t[i].key) && Chained(t, t[i].hash, i))
    && (forall i, j :: 0 <= i < j < |t| && t[i].Entry? && t[j].Entry? ==> t[i].key != t[j].key)
  }

  ghost predicate Holds<D>(t: seq<Slot<D>>, m: map<Key, D>) {
    && (forall i :: 0 <= i < |t| && t[i].Entry? ==> t[i].key in m && m[t[i].key] == t[i].data)
    && (forall k :: k in m ==> exists i :: 0 <= i < |t| && t[i].Entry? && t[i].key == k)
  }

  lemma FreeSlot<D>(t: seq<Slot<D>>, h: hash64) returns (j: nat)
    requires Size(|t|) && |t| > 0 && Count(t) < |t|
    ensures t[Pos(h, |t|, j)].Empty?
  {
    hide Pow2, Pos;
    CountFull(t);
    var e :| 0 <= e < |t| && t[e].Empty?;
    var k: nat :| k > 0 && |t| == Pow2(k);
    j := ProbeReaches(h, k, e);
  }

  // A search that ends at a free slot has passed the slot of every entry with that hash.
  lemma NotThere<D>(t: seq<Slot<D>>, hash: Key -> hash64, key: Key, j: nat, i: nat)
    requires Placed(t, hash) && i < |t| && t[i].Entry? && t[i].key == key
    ensures t[Pos(hash(key), |t|, j)].Empty? ==> exists l :: 0 <= l < j && Pos(hash(key), |t|, l) == i
  {
    hide Pos;
    var l: nat :| Pos(t[i].hash, |t|, l) == i && Busy(t, t[i].hash, l);
    if l > j {
      assert t[Pos(hash(key), |t|, j)].Entry?;
    }
  }

  // It has met the key if the key is there at all.
  lemma Absent<D>(t: seq<Slot<D>>, hash: Key -> hash64, key: Key, j: nat)
    requires Placed(t, hash) && t[Pos(hash(key), |t|, j)].Empty?
    requires forall l :: 0 <= l < j ==>
               t[Pos(hash(key), |t|, l)].Entry? && t[Pos(hash(key), |t|, l)].key != key
    ensures forall i :: 0 <= i < |t| && t[i].Entry? ==> t[i].key != key
  {
    hide Pos, Placed;
    forall i | 0 <= i < |t| && t[i].Entry? ensures t[i].key != key {
      if t[i].key == key {
        NotThere(t, hash, key, j, i);
      }
    }
  }

  // Filling the free slot at the end of a chain keeps the table in order.
  lemma Filled<D>(t: seq<Slot<D>>, hash: Key -> hash64, i: nat, s: Slot<D>)
    requires Placed(t, hash) && i < |t| && t[i].Empty? && s.Entry? && s.hash == hash(s.key)
    requires Chained(t, s.hash, i) && forall l :: 0 <= l < |t| && t[l].Entry? ==> t[l].key != s.key
    ensures Placed(t[i := s], hash)
  {
    hide Pos, Size;
    var u := t[i := s];
    forall l | 0 <= l < |u| && u[l].Entry? ensures u[l].hash == hash(u[l].key) && Chained(u, u[l].hash, l) {
      assert Chained(t, u[l].hash, l);
      var j: nat :| Pos(u[l].hash, |t|, j) == l && Busy(t, u[l].hash, j);
      assert Busy(u, u[l].hash, j);
    }
  }

  lemma FilledHolds<D>(t: seq<Slot<D>>, m: map<Key, D>, i: nat, s: Slot<D>)
    requires Holds(t, m) && i < |t| && t[i].Empty? && s.Entry?
    requires forall l :: 0 <= l < |t| && t[l].Entry? ==> t[l].key != s.key
    ensures Holds(t[i := s], m[s.key := s.data])
  {
    var u, m' := t[i := s], m[s.key := s.data];
    forall k | k in m' ensures exists l :: 0 <= l < |u| && u[l].Entry? && u[l].key == k {
      if k == s.key {
        assert u[i].key == k;
      } else {
        var l :| 0 <= l < |t| && t[l].Entry? && t[l].key == k;
        assert u[l].key == k;
      }
    }
  }

  const INIT_SIZE: nat := 16

  function MaxLoad(size: nat): nat {
    size / 2
  }

  // The first free slot of a probe sequence.
  method FindFree<D>(t: array<Slot<D>>, h: hash64) returns (pos: nat)
    requires Size(t.Length) && t.Length > 0 && Count(t[..]) < t.Length
    ensures pos < t.Length && t[pos].Empty? && Chained(t[..], h, pos)
  {
    hide Pos, Size, Count;
    ghost var last := FreeSlot(t[..], h);
    ghost var j := 0;
    PosFirst(h, t.Length);
    pos := h % t.Length;
    while t[pos].Entry?
      invariant j <= last && pos == Pos(h, t.Length, j) && Busy(t[..], h, j)
      decreases last - j
    {
      PosNext(h, t.Length, j);
      pos := (pos + Step(h, t.Length)) % t.Length;
      j := j + 1;
    }
  }

  // Moves entry i of t to the first free slot of its probe sequence.
  method Move<D>(newtbl: array<Slot<D>>, s: Slot<D>, ghost t: seq<Slot<D>>, ghost hash: Key -> hash64, ghost i: nat)
    returns (p: nat)
    requires i < |t| && s == t[i] && s.Entry? && Placed(t, hash)
    requires Placed(newtbl[..], hash) && Count(newtbl[..]) < newtbl.Length && SameEntries(newtbl[..], t[..i])
    modifies newtbl
    ensures Placed(newtbl[..], hash) && Count(newtbl[..]) == old(Count(newtbl[..])) + 1
    ensures SameEntries(newtbl[..], t[..i + 1])
    ensures p < newtbl.Length && newtbl[..] == old(newtbl[..])[p := s] && old(newtbl[p]).Empty?
  {
    hide Pos, Count, SameEntries;
    ghost var u := newtbl[..];
    p := FindFree(newtbl, s.hash);
    NewKey(u, t, hash, i);
    Filled(u, hash, p, s);
    CountUpdate(u, p, s);
    SameFilled(u, t, i, p);
    newtbl[p] := s;
    assert newtbl[..] == u[p := s];
  }

  class Table<D> {
    const hash: Key -> hash64
    var table: array?<Slot<D>>
    var load: nat
    var size: nat
    var maxLoad: nat
    ghost var m: map<Key, D>

    // The table is absent until the first insertion; after that at least half of it is free.
    ghost predicate Valid()
      reads this, table
    {
      if table == null then size == 0 && m == map[]
      else
        && size == table.Length && maxLoad == MaxLoad(size) && INIT_SIZE <= size
        && load == Count(table[..]) && load <= maxLoad
        && Placed(table[..], hash) && Holds(table[..], m)
    }

    constructor (hash: Key -> hash64)
      ensures Valid() && m == map[] && this.hash == hash && table == null
    {
      this.hash := hash;
      table, load, size, maxLoad, m := null, 0, 0, 0, map[];
    }

    // An insertion may follow a failed search of its key as long as nothing else was inserted.
    ghost predicate Pending(ins: HashInsert)
      reads this, table
    {
      && ins.hash == hash(ins.key) && ins.key !in m
      && match ins.pos
         case None => table == null
         case Some(pos) =>
           table != null && pos < table.Length && table[pos].Empty? && Chained(table[..], ins.hash, pos)
    }

    // Finds exactly the keys of the map; the slot found holds their data.
    method Find(key: Key) returns (pos: Option<nat>, ins: HashInsert)
      requires Valid()
      ensures pos.Some? <==> key in m
      ensures pos.Some? ==>
        table != null && pos.value < table.Length && table[pos.value] == Entry(hash(key), key, m[key])
      ensures pos.None? ==> Pending(ins) && ins.key == key
    {
      hide Pos, Size, Count;
      var h := hash(key);
      ins := HashInsert(h, key, None);
      pos := None;
      if table != null {
        ghost var last := FreeSlot(table[..], h);
        ghost var j := 0;
        PosFirst(h, size);
        var p := h % size;
        while table[p].Entry?
          invariant j <= last && p == Pos(h, size, j) && Busy(table[..], h, j)
          invariant forall l :: 0 <= l < j ==> table[Pos(h, size, l)].Entry? && table[Pos(h, size, l)].key != key
          decreases last - j
        {
          if h == table[p].hash && key == table[p].key {
            pos := Some(p);
            return;
          }
          PosNext(h, size, j);
          p := (p + Step(h, size)) % size;
          j := j + 1;
        }
        ins := HashInsert(h, key, Some(p));
        Absent(table[..], hash, key, j);
      }
    }

    // Adds the binding of the failed search, in its slot or, after an expansion, in the one returned.
    method Add(ins: HashInsert, data: D) returns (pos: nat)
      requires Valid() && Pending(ins)
      modifies this, table
      ensures Valid() && m == old(m)[ins.key := data]
      ensures table != null && (table == old(table) || fresh(table))
      ensures pos < table.Length && table[pos] == Entry(ins.hash, ins.key, data)
    {
      hide Pos, Count;
      if ins.pos.None? {
        Init();
        pos := ins.hash % size;
        FirstSlot(table[..], ins.hash);
      } else {
        pos := ins.pos.value;
      }
      var slot := Entry(ins.hash, ins.key, data);
      KeyAbsent(table[..], m, ins.key);
      Filled(table[..], hash, pos, slot);
      FilledHolds(table[..], m, pos, slot);
      CountUpdate(table[..], pos, slot);
      ghost var t := table[..];
      table[pos] := slot;
      assert table[..] == t[pos := slot];
      m := m[ins.key := data];
      load := load + 1;
      if load > maxLoad {
        pos := Expand(pos);
      }
    }

    method Init()
      requires Valid() && table == null
      modifies this
      ensures Valid() && m == old(m) && table != null && fresh(table)
      ensures forall i :: 0 <= i < table.Length ==> table[i].Empty?
      ensures load < maxLoad
    {
      size := INIT_SIZE;
      load := 0;
      maxLoad := MaxLoad(size);
      table := new Slot<D>[size](_ => Empty);
      CountFull(table[..]);
      SixteenIsSize();
    }

    // A search, and an insertion where it fails.
    method FindOrAdd(key: Key, data: D) returns (pos: nat)
      requires Valid()
      modifies this, table
      ensures Valid() && (table == old(table) || fresh(table))
      ensures m == if key in old(m) then old(m) else old(m)[key := data]
      ensures table != null && pos < table.Length && table[pos] == Entry(hash(key), key, m[key])
    {
      var found, ins := Find(key);
      match found {
        case Some(p) => pos := p;
        case None => pos := Add(ins, data);
      }
    }

    // Any run of such pairs on a new table gives the map of the first data of each key.
    static method Run(hash: Key -> hash64, ops: seq<(Key, D)>) returns (t: Table<D>)
      ensures fresh(t) && t.Valid() && t.hash == hash && t.m == FirstBindings(ops)
    {
      t := new Table(hash);
      assert ops[..0] == [];
      for i := 0 to |ops|
        invariant fresh(t) && (t.table != null ==> fresh(t.table))
        invariant t.Valid() && t.hash == hash && t.m == FirstBindings(ops[..i])
      {
        var pos := t.FindOrAdd(ops[i].0, ops[i].1);
        assert ops[..i + 1][..i] == ops[..i];
      }
      assert ops[..|ops|] == ops;
    }

    // The next entry from slot next on; after the last one the iterator starts again.
    method Iterate(next: nat) returns (np: Option<nat>, next': nat)
      requires Valid() && next <= size
      ensures match np
              case Some(i) =>
                && table != null && next <= i < size && next' == i + 1 && table[i].Entry?
                && forall l :: next <= l < i ==> table[l].Empty?
              case None => next' == 0 && forall l :: next <= l < size && table != null ==> table[l].Empty?
    {
      var cp := next;
      while cp < size
        invariant next <= cp <= size
        invariant forall l :: next <= l < cp && table != null ==> table[l].Empty?
      {
        if table[cp].Entry? {
          return Some(cp), cp + 1;
        }
        cp := cp + 1;
      }
      return None, 0;
    }

    // A loop over the iterator sees every binding once.
    method ForEach() returns (all: seq<Slot<D>>)
      requires Valid()
      ensures DistinctKeys(all) && Holds(all, m)
      ensures |all| == if table == null then 0 else load
    {
      hide Count, Placed, Holds;
      all := [];
      var np, next := Iterate(0);
      ghost var t: seq<Slot<D>> := if table == null then [] else table[..];
      ghost var seen := 0;
      EntriesNone(t);
      while np.Some?
        invariant |t| == size && (table != null ==> t == table[..]) && seen <= size && all == Entries(t[..seen])
        invariant match np
                  case Some(i) =>
                    seen <= i < size && t[i].Entry? && next == i + 1 && forall l :: seen <= l < i ==> t[l].Empty?
                  case None => forall l :: seen <= l < size ==> t[l].Empty?
        decreases size - seen
      {
        var i := np.value;
        all := all + [table[i]];
        EntriesNext(t, seen, i);
        seen := i + 1;
        np, next := Iterate(next);
      }
      EntriesRest(t, seen);
      if table == null {
        NoBindings(m);
      } else {
        EntriesFacts(t, hash, m);
      }
    }

    // Rehashes all entries into a table of twice the size; pos follows its entry.
    method Expand(pos: nat) returns (pos': nat)
      requires table != null && size == table.Length && INIT_SIZE <= size && load == Count(table[..])
      requires load <= MaxLoad(size) + 1 && Placed(table[..], hash) && Holds(table[..], m)
      requires pos < size && table[pos].Entry?
      modifies this
      ensures Valid() && m == old(m) && table != null && fresh(table)
      ensures pos' < table.Length && table[pos'] == old(table[pos])
    {
      hide Pos, Count, Placed, SameEntries, Holds;
      var newsize := size * 2;
      var newtbl := new Slot<D>[newsize](_ => Empty);
      ghost var t := table[..];
      CountFull(newtbl[..]);
      PlacedSize(t, hash);
      DoubleSize(size);
      EmptyPlaced(newtbl[..], hash);
      assert t[..0] == [];
      CountNone<D>();
      pos' := 0;
      var i := 0;
      while i < size
        invariant 0 <= i <= size == |t| && fresh(newtbl) && newtbl.Length == newsize
        invariant table == old(table) && table[..] == t && size == old(size) && load == old(load) && m == old(m)
        invariant Placed(newtbl[..], hash) && Count(newtbl[..]) == Count(t[..i])
        invariant SameEntries(newtbl[..], t[..i])
        invariant pos < i ==> pos' < newsize && newtbl[pos'] == t[pos]
      {
        CountPrefix(t, i);
        assert t[..i + 1][..i] == t[..i];
        if table[i].Entry? {
          var p := Move(newtbl, table[i], t, hash, i);
          if i == pos {
            pos' := p;
          }
        } else {
          SameSkipped(newtbl[..], t, i);
        }
        i := i + 1;
      }
      assert t[..size] == t;
      SameHolds(newtbl[..], t, m);
      table := newtbl;
      size := newsize;
      maxLoad := MaxLoad(newsize);
    }
  }

  lemma PlacedSize<D>(t: seq<Slot<D>>, hash: Key -> hash64)
    requires Placed(t, hash)
    ensures Size(|t|)
  {
  }

  lemma EmptyPlaced<D>(t: seq<Slot<D>>, hash: Key -> hash64)
    requires Size(|t|) && |t| > 0 && forall i :: 0 <= i < |t| ==> t[i].Empty?
    ensures Placed(t, hash) && SameEntries(t, [])
  {
  }

  lemma SixteenIsSize()
    ensures Size(16)
  {
    assert Pow2(0) == 1 && Pow2(1) == 2 && Pow2(2) == 4 && Pow2(3) == 8 && Pow2(4) == 16;
  }

  lemma DoubleSize(n: nat)
    requires Size(n)
    ensures Size(n * 2)
  {
    var k: nat :| k > 0 && n == Pow2(k);
    assert n * 2 == Pow2(k + 1);
  }

  lemma FirstSlot<D>(t: seq<Slot<D>>, h: hash64)
    requires |t| > 0
    ensures h % |t| < |t| && Chained(t, h, h % |t|)
  {
    PosFirst(h, |t|);
    assert Busy(t, h, 0);
  }

  lemma KeyAbsent<D>(t: seq<Slot<D>>, m: map<Key, D>, key: Key)
    requires Holds(t, m) && key !in m
    ensures forall i :: 0 <= i < |t| && t[i].Entry? ==> t[i].key != key
  {
  }

  lemma CountNone<D>()
    ensures Count<D>([]) == 0
  {
  }

  lemma {:induction false} CountPrefix<D>(t: seq<Slot<D>>, i: nat)
    requires i < |t|
    ensures Count(t[..i]) <= Count(t)
    ensures t[i].Entry? ==> Count(t[..i]) < Count(t) && Count(t[..i + 1]) == Count(t[..i]) + 1
    ensures t[i].Empty? ==> Count(t[..i + 1]) == Count(t[..i])
  {
    assert t[..i + 1][..i] == t[..i];
    if i == |t| - 1 {
      assert t[..i + 1] == t;
    } else {
      CountPrefix(t[..|t| - 1], i);
      assert t[..|t| - 1][..i] == t[..i];
    }
  }

  ghost predicate SameEntries<D>(a: seq<Slot<D>>, b: seq<Slot<D>>) {
    && (forall i :: 0 <= i < |a| && a[i].Entry? ==> a[i] in b)
    && (forall i :: 0 <= i < |b| && b[i].Entry? ==> b[i] in a)
  }

  lemma NewKey<D>(u: seq<Slot<D>>, t: seq<Slot<D>>, hash: Key -> hash64, i: nat)
    requires Placed(t, hash) && i < |t| && t[i].Entry? && SameEntries(u, t[..i])
    ensures forall l :: 0 <= l < |u| && u[l].Entry? ==> u[l].key != t[i].key
  {
    forall l | 0 <= l < |u| && u[l].Entry? ensures u[l].key != t[i].key {
      var x :| 0 <= x < i && t[..i][x] == u[l];
      assert t[x] == u[l];
    }
  }

  lemma SameFilled<D>(u: seq<Slot<D>>, t: seq<Slot<D>>, i: nat, p: nat)
    requires i < |t| && t[i].Entry? && p < |u| && u[p].Empty? && SameEntries(u, t[..i])
    ensures SameEntries(u[p := t[i]], t[..i + 1])
  {
    var u', v := u[p := t[i]], t[..i + 1];
    assert v == t[..i] + [t[i]];
    forall l | 0 <= l < |v| && v[l].Entry? ensures v[l] in u' {
      if l == i {
        assert u'[p] == t[i];
      } else {
        assert t[..i][l] in u;
        var x :| 0 <= x < |u| && u[x] == t[l];
        assert u'[x] == t[l];
      }
    }
  }

  lemma SameSkipped<D>(u: seq<Slot<D>>, t: seq<Slot<D>>, i: nat)
    requires i < |t| && t[i].Empty? && SameEntries(u, t[..i])
    ensures SameEntries(u, t[..i + 1])
  {
    assert t[..i + 1] == t[..i] + [t[i]];
  }

  lemma SameHolds<D>(u: seq<Slot<D>>, t: seq<Slot<D>>, m: map<Key, D>)
    requires SameEntries(u, t) && Holds(t, m)
    ensures Holds(u, m)
  {
    forall k | k in m ensures exists i :: 0 <= i < |u| && u[i].Entry? && u[i].key == k {
      var i :| 0 <= i < |t| && t[i].Entry? && t[i].key == k;
      assert t[i] in u;
    }
  }

  // What a run of searches with insertion leaves: the first binding of every key counts.
  function FirstBindings<D>(ops: seq<(Key, D)>): map<Key, D> {
    if ops == [] then map[]
    else
      var m := FirstBindings(ops[..|ops| - 1]);
      var (key, data) := ops[|ops| - 1];
      if key in m then m else m[key := data]
  }

  // Entries only, with different keys.
  ghost predicate DistinctKeys<D>(e: seq<Slot<D>>) {
    && (forall i :: 0 <= i < |e| ==> e[i].Entry?)
    && (forall i, j :: 0 <= i < j < |e| ==> e[i].key != e[j].key)
  }

  // The entries in slot order.
  ghost function Entries<D>(t: seq<Slot<D>>): seq<Slot<D>> {
    if t == [] then []
    else Entries(t[..|t| - 1]) + if t[|t| - 1].Entry? then [t[|t| - 1]] else []
  }

  lemma EntriesNone<D>(t: seq<Slot<D>>)
    ensures Entries(t[..0]) == []
  {
  }

  lemma {:induction false} EntriesSkip<D>(t: seq<Slot<D>>, a: nat, b: nat)
    requires a <= b <= |t| && forall l :: a <= l < b ==> t[l].Empty?
    ensures Entries(t[..b]) == Entries(t[..a])
    decreases b
  {
    if a < b {
      EntriesSkip(t, a, b - 1);
      assert t[..b][..b - 1] == t[..b - 1];
    }
  }

  lemma EntriesNext<D>(t: seq<Slot<D>>, a: nat, i: nat)
    requires a <= i < |t| && t[i].Entry? && forall l :: a <= l < i ==> t[l].Empty?
    ensures Entries(t[..i + 1]) == Entries(t[..a]) + [t[i]]
  {
    EntriesSkip(t, a, i);
    assert t[..i + 1][..i] == t[..i];
  }

  lemma EntriesRest<D>(t: seq<Slot<D>>, a: nat)
    requires a <= |t| && forall l :: a <= l < |t| ==> t[l].Empty?
    ensures Entries(t[..a]) == Entries(t)
  {
    EntriesSkip(t, a, |t|);
    assert t[..|t|] == t;
  }

  lemma NoBindings<D>(m: map<Key, D>)
    ensures Entries<D>([]) == [] && DistinctKeys<D>([])
    ensures m == map[] ==> Holds([], m)
  {
  }

  // Entries keeps all of them, in order.
  lemma {:induction false} EntriesKeep<D>(t: seq<Slot<D>>, s: Slot<D>)
    ensures s in Entries(t) <==> s in t && s.Entry?
    ensures |Entries(t)| == Count(t)
  {
    if t != [] {
      EntriesKeep(t[..|t| - 1], s);
      assert t == t[..|t| - 1] + [t[|t| - 1]];
    }
  }

  lemma {:induction false} EntriesDistinct<D>(t: seq<Slot<D>>)
    requires forall i, j :: 0 <= i < j < |t| && t[i].Entry? && t[j].Entry? ==> t[i].key != t[j].key
    ensures DistinctKeys(Entries(t))
  {
    if t != [] {
      var u, s := t[..|t| - 1], t[|t| - 1];
      EntriesDistinct(u);
      var e := Entries(u);
      forall i | 0 <= i < |e| && s.Entry? ensures e[i].Entry? && e[i].key != s.key {
        EntriesKeep(u, e[i]);
        assert e[i] in e;
        var l :| 0 <= l < |u| && u[l] == e[i];
        assert t[l] == e[i];
      }
      assert Entries(t) == e + if s.Entry? then [s] else [];
    }
  }

  lemma EntriesFacts<D>(t: seq<Slot<D>>, hash: Key -> hash64, m: map<Key, D>)
    requires Placed(t, hash) && Holds(t, m)
    ensures |Entries(t)| == Count(t)
    ensures DistinctKeys(Entries(t))
    ensures Holds(Entries(t), m)
  {
    hide Entries;
    var e := Entries(t);
    EntriesKeep(t, Empty);
    EntriesDistinct(t);
    forall i | 0 <= i < |e| && e[i].Entry? ensures e[i].key in m && m[e[i].key] == e[i].data {
      EntriesKeep(t, e[i]);
      assert e[i] in e;
      var l :| 0 <= l < |t| && t[l] == e[i];
    }
    forall k | k in m ensures exists i :: 0 <= i < |e| && e[i].Entry? && e[i].key == k {
      var l :| 0 <= l < |t| && t[l].Entry? && t[l].key == k;
      EntriesKeep(t, t[l]);
      assert t[l] in e;
    }
  }
}
