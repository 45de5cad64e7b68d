/** The registry of queues: a table by id, and an index by name with open addressing and tombstones. */
module Registry {
  import opened Arith
  import opened Optional

  const NAME_MAX: nat := 128
  const TABLE_CAPACITY: nat := 100_001

  datatype Desc = Desc(name: string, id: nat)

  /** A cell of the index: never used, given up, or in use. */
  datatype Cell = Empty | Tombstone | Entry(d: Desc)

  /** The cell that probe `k` looks at. */
  function Probe(table: seq<Cell>, home: nat, k: nat): Cell
    requires 0 < |table|
  {
    table[Index(home + k, |table|)]
  }

  /** Probing from `home` comes to this descriptor without crossing an empty cell. */
  predicate ReachedAt(table: seq<Cell>, home: nat, k: nat, d: Desc)
    requires 0 < |table|
  {
    Probe(table, home, k) == Entry(d) && forall j :: 0 <= j < k ==> Probe(table, home, j) != Empty
  }

  ghost predicate Reachable(table: seq<Cell>, home: nat, d: Desc)
    requires 0 < |table|
  {
    exists k :: 0 <= k < |table| && ReachedAt(table, home, k, d)
  }

  /** Where a name is looked for first. */
  function Home(hash: string -> nat, name: string, cap: nat): (home: nat)
    requires 0 < cap
    ensures home < cap
  {
    Index(hash(name), cap)
  }

  /** The index stands for the map. */
  ghost predicate Indexes(table: seq<Cell>, hash: string -> nat, m: map<string, Desc>) {
    0 < |table| && Live(table) == |m| &&
    (forall i :: 0 <= i < |table| && table[i].Entry? ==> table[i].d.name in m && m[table[i].d.name] == table[i].d) &&
    (forall i, j :: 0 <= i < |table| && 0 <= j < |table| && table[i].Entry? && table[j].Entry? && table[i].d == table[j].d ==> i == j) &&
    (forall name :: name in m ==> m[name].name == name && Reachable(table, Home(hash, name, |table|), m[name]))
  }

  function Live(table: seq<Cell>): nat {
    if table == [] then 0 else (if table[0].Entry? then 1 else 0) + Live(table[1..])
  }

  // ---- cells ----

  lemma {:induction false} LiveUpdate(table: seq<Cell>, i: nat, c: Cell)
    requires i < |table|
    ensures Live(table[i := c]) == Live(table) - (if table[i].Entry? then 1 else 0) + (if c.Entry? then 1 else 0)
  {
    if i > 0 {
      LiveUpdate(table[1..], i - 1, c);
      assert table[i := c][1..] == table[1..][i - 1 := c];
    } else {
      assert table[i := c][1..] == table[1..];
    }
  }

  lemma {:induction false} LiveBound(table: seq<Cell>)
    ensures Live(table) <= |table|
    ensures Live(table) < |table| ==> exists i :: 0 <= i < |table| && !table[i].Entry?
    ensures (forall i :: 0 <= i < |table| ==> !table[i].Entry?) ==> Live(table) == 0
  {
    if table != [] {
      LiveBound(table[1..]);
      if Live(table) < |table| && table[0].Entry? {
        var i :| 0 <= i < |table[1..]| && !table[1..][i].Entry?;
        assert !table[i + 1].Entry?;
      }
    }
  }

  /** As many probes as there are cells look at every cell. */
  lemma ProbesCover(home: nat, i: nat, cap: nat) returns (k: nat)
    requires home < cap && i < cap
    ensures k < cap && Index(home + k, cap) == i
  {
    if home <= i {
      k := i - home;
      SmallIndex(i, cap);
    } else {
      k := cap - home + i;
      assert home + k == i + cap;
      SmallIndex(i, cap);
    }
  }

  /** The next probe is one cell further, around the end. */
  lemma NextProbe(home: nat, k: nat, cap: nat)
    requires 0 < cap
    ensures Index(home + k + 1, cap) == (Index(home + k, cap) + 1) % cap
  {
    IndexIsModulo(home + k + 1, cap);
    IndexIsModulo(home + k, cap);
    ModSucc(home + k, cap);
    var x := Index(home + k, cap);
    SmallMod(x, cap);
    ModSucc(x, cap);
  }

  // ---- searching ----

  /** A name that is in the map is found by probing before any empty cell, and nowhere else. */
  lemma FoundHere(table: seq<Cell>, hash: string -> nat, m: map<string, Desc>, name: string, k: nat)
    requires Indexes(table, hash, m) && k < |table| && Probe(table, Home(hash, name, |table|), k).Entry?
    requires Probe(table, Home(hash, name, |table|), k).d.name == name
    ensures name in m && m[name] == Probe(table, Home(hash, name, |table|), k).d
  {
  }

  /** At the first empty cell, the search is over. */
  lemma NotBeyondEmpty(table: seq<Cell>, hash: string -> nat, m: map<string, Desc>, name: string, k: nat)
    requires Indexes(table, hash, m) && k <= |table| && (k == |table| || Probe(table, Home(hash, name, |table|), k) == Empty)
    requires forall j :: 0 <= j < k ==> !IsFor(Probe(table, Home(hash, name, |table|), j), name)
    ensures name !in m
  {
    if name in m {
      var home := Home(hash, name, |table|);
      var n :| 0 <= n < |table| && ReachedAt(table, home, n, m[name]);
      assert IsFor(Probe(table, home, n), name);
      assert false;
    }
  }

  predicate IsFor(c: Cell, name: string) {
    c.Entry? && c.d.name == name
  }

  // ---- changing a cell ----

  /** Writing into a cell never makes another descriptor unreachable, as long as the cell does not become empty. */
  lemma StaysReachable(table: seq<Cell>, i: nat, c: Cell, home: nat, d: Desc)
    requires i < |table| && c != Empty && table[i] != Entry(d) && Reachable(table, home, d)
    ensures Reachable(table[i := c], home, d)
  {
    hide Index;
    var table' := table[i := c];
    var k :| 0 <= k < |table| && ReachedAt(table, home, k, d);
    forall j | 0 <= j < k
      ensures Probe(table', home, j) != Empty
    {
      assert Probe(table, home, j) != Empty;
    }
    assert ReachedAt(table', home, k, d);
  }

  lemma NewReachable(table: seq<Cell>, i: nat, home: nat, k: nat, d: Desc)
    requires k < |table| && i == Index(home + k, |table|) && forall j :: 0 <= j < k ==> Probe(table, home, j) != Empty
    ensures Reachable(table[i := Entry(d)], home, d)
  {
    hide Index;
    var table' := table[i := Entry(d)];
    forall j | 0 <= j < k
      ensures Probe(table', home, j) != Empty
    {
      assert Probe(table, home, j) != Empty;
    }
    assert ReachedAt(table', home, k, d);
  }

  /** A new descriptor goes into a free cell that probing from its home reaches. */
  lemma InsertAt(table: seq<Cell>, hash: string -> nat, m: map<string, Desc>, d: Desc, k: nat, i: nat)
    requires Indexes(table, hash, m) && d.name !in m && k < |table| && i == Index(Home(hash, d.name, |table|) + k, |table|)
    requires !table[i].Entry? && forall j :: 0 <= j < k ==> Probe(table, Home(hash, d.name, |table|), j) != Empty
    ensures Indexes(table[i := Entry(d)], hash, m[d.name := d])
  {
    hide Index, Live, Home, Reachable, Probe;
    var table', m' := table[i := Entry(d)], m[d.name := d];
    LiveUpdate(table, i, Entry(d));
    NewReachable(table, i, Home(hash, d.name, |table|), k, d);
    forall name | name in m'
      ensures m'[name].name == name && Reachable(table', Home(hash, name, |table|), m'[name])
    {
      if name != d.name { StaysReachable(table, i, Entry(d), Home(hash, name, |table|), m[name]); }
    }
  }

  /** Removing leaves a tombstone, so that probing goes on across it. */
  lemma RemoveAt(table: seq<Cell>, hash: string -> nat, m: map<string, Desc>, d: Desc, i: nat)
    requires Indexes(table, hash, m) && i < |table| && table[i] == Entry(d)
    ensures d.name in m && Indexes(table[i := Tombstone], hash, m - {d.name})
  {
    hide Index, Live, Home, Reachable;
    var table', m' := table[i := Tombstone], m - {d.name};
    LiveUpdate(table, i, Tombstone);
    assert m == m'[d.name := d] && |m| == |m'| + 1;
    forall name | name in m'
      ensures m'[name].name == name && Reachable(table', Home(hash, name, |table|), m'[name])
    {
      StaysReachable(table, i, Tombstone, Home(hash, name, |table|), m[name]);
    }
  }

  lemma EmptyIndexes(table: seq<Cell>, hash: string -> nat)
    requires 0 < |table| && forall i :: 0 <= i < |table| ==> table[i] == Empty
    ensures Indexes(table, hash, map[])
  {
    LiveBound(table);
  }

  /** Unless every cell is in use, a free cell is found: the first tombstone on the way, or else the empty cell. */
  lemma FreeCell(table: seq<Cell>, home: nat)
    requires home < |table| && Live(table) < |table|
    ensures exists k :: 0 <= k < |table| && !Probe(table, home, k).Entry?
  {
    hide Index, Live;
    LiveBound(table);
    var i :| 0 <= i < |table| && !table[i].Entry?;
    var k := ProbesCover(home, i, |table|);
    assert !Probe(table, home, k).Entry?;
  }

  /** The table by id has exactly the queues of the map. */
  ghost predicate TableIs(queues: seq<Option<Desc>>, nextId: nat, m: map<string, Desc>) {
    0 < nextId <= |queues| <= TABLE_CAPACITY && queues[0] == None &&
    (forall id :: 0 <= id < |queues| && queues[id].Some? ==>
      queues[id].value.id == id < nextId && queues[id].value.name in m && m[queues[id].value.name] == queues[id].value) &&
    (forall name :: name in m ==> m[name].name == name && 0 < m[name].id < nextId && queues[m[name].id] == Some(m[name]))
  }

  lemma TableAdd(queues: seq<Option<Desc>>, nextId: nat, m: map<string, Desc>, name: string)
    requires TableIs(queues, nextId, m) && nextId < |queues| && name !in m
    ensures TableIs(queues[nextId := Some(Desc(name, nextId))], nextId + 1, m[name := Desc(name, nextId)])
    ensures forall other :: other in m ==> m[other].id != nextId
  {
  }

  lemma TableRemove(queues: seq<Option<Desc>>, nextId: nat, m: map<string, Desc>, name: string)
    requires TableIs(queues, nextId, m) && name in m
    ensures m[name].id < |queues| && TableIs(queues[m[name].id := None], nextId, m - {name})
  {
  }

  lemma TableGrows(queues: seq<Option<Desc>>, nextId: nat, m: map<string, Desc>, bigger: seq<Option<Desc>>)
    requires TableIs(queues, nextId, m) && queues <= bigger && |bigger| <= TABLE_CAPACITY
    requires forall id :: |queues| <= id < |bigger| ==> bigger[id] == None
    ensures TableIs(bigger, nextId, m)
  {
  }

  lemma TableBounds(queues: seq<Option<Desc>>, nextId: nat, m: map<string, Desc>)
    requires TableIs(queues, nextId, m)
    ensures 0 < nextId <= |queues| <= TABLE_CAPACITY
  {
  }

  class Registry {
    const hash: string -> nat
    var index: array<Cell>
    var queues: array<Option<Desc>>
    var nextId: nat
    var count: nat
    ghost var m: map<string, Desc>

    /** Index, table and map agree, and the index is less than seven tenths full. */
    ghost predicate Valid()
      reads this, index, queues
    {
      TableIs(queues[..], nextId, m) && Indexes(index[..], hash, m) && count == |m| && count * 10 < index.Length * 7
    }

    /** The queues by name. */
    ghost function Contents(): map<string, Desc>
      reads this`m
    {
      m
    }

    constructor (capacity: nat, nameHash: string -> nat)
      ensures Valid() && Contents() == map[] && fresh(index) && fresh(queues) && hash == nameHash
    {
      var cap := if capacity == 0 then 1024 else capacity;
      if cap > TABLE_CAPACITY {
        cap := TABLE_CAPACITY;
      }
      hash := nameHash;
      queues := new Option<Desc>[cap](_ => None);
      index := new Cell[2048](_ => Empty);
      nextId, count, m := 1, 0, map[];
      new;
      EmptyIndexes(index[..], hash);
    }

    /** The queue with this name, if there is one. */
    method Find(name: string) returns (r: Option<Desc>)
      requires Valid()
      ensures r == if name in Contents() then Some(Contents()[name]) else None
    {
      var i := FindCell(name);
      if i == index.Length {
        return None;
      }
      r := Some(index[i].d);
    }

    /** The cell of a name, by probing. */
    method FindCell(name: string) returns (i: nat)
      requires 0 < index.Length && Indexes(index[..], hash, m)
      ensures i <= index.Length && (i < index.Length <==> name in m)
      ensures i < index.Length ==> index[i] == Entry(m[name])
    {
      hide Indexes;
      var slot := Home(hash, name, index.Length);
      ghost var home := slot;
      SmallIndex(home, index.Length);
      var probes := 0;
      while probes < index.Length
        invariant probes <= index.Length && slot == Index(home + probes, index.Length)
        invariant forall j :: 0 <= j < probes ==> !IsFor(Probe(index[..], home, j), name)
      {
        if index[slot].Empty? {
          break;
        }
        if index[slot].Entry? && index[slot].d.name == name {
          FoundHere(index[..], hash, m, name, probes);
          return slot;
        }
        NextProbe(home, probes, index.Length);
        slot := (slot + 1) % index.Length;
        probes := probes + 1;
      }
      NotBeyondEmpty(index[..], hash, m, name, probes);
      i := index.Length;
    }

    /** Puts a descriptor into an index that has room for it. */
    static method InsertRaw(table: array<Cell>, hash: string -> nat, d: Desc, ghost mm: map<string, Desc>) returns (rc: int)
      requires 0 < table.Length && Indexes(table[..], hash, mm) && d.name !in mm && |mm| < table.Length
      modifies table
      ensures rc == 0 && Indexes(table[..], hash, mm[d.name := d])
    {
      hide Indexes, Home, Index;
      ghost var before := table[..];
      var slot := Home(hash, d.name, table.Length);
      ghost var home := slot;
      SmallIndex(home, table.Length);
      var probes, tombstone := 0, table.Length;
      ghost var at := 0;
      while probes < table.Length
        invariant probes <= table.Length && slot == Index(home + probes, table.Length) && table[..] == before
        invariant forall j :: 0 <= j < probes ==> Probe(before, home, j) != Empty
        invariant tombstone <= table.Length
        invariant tombstone == table.Length ==> forall j :: 0 <= j < probes ==> Probe(before, home, j).Entry?
        invariant tombstone < table.Length ==> at < probes && tombstone == Index(home + at, table.Length) && table[tombstone] == Tombstone
      {
        if table[slot].Empty? {
          var free := if tombstone < table.Length then tombstone else slot;
          InsertAt(before, hash, mm, d, if tombstone < table.Length then at else probes, free);
          table[free] := Entry(d);
          return 0;
        }
        if table[slot].Tombstone? && tombstone == table.Length {
          tombstone, at := slot, probes;
        }
        NextProbe(home, probes, table.Length);
        slot := (slot + 1) % table.Length;
        probes := probes + 1;
      }
      if tombstone < table.Length {
        InsertAt(before, hash, mm, d, at, tombstone);
        table[tombstone] := Entry(d);
        return 0;
      }
      assert Live(before) == |mm| by { LiveIsSize(before, hash, mm); }
      FreeCell(before, home);
      assert false;
      rc := -4;
    }

    /** Doubles the index and enters every queue again; tombstones are left behind. */
    method Grow()
      requires Valid()
      modifies this`index
      ensures Valid() && fresh(index) && index.Length == 2 * old(index.Length)
    {
      hide Indexes, TableIs, Below;
      var bigger := new Cell[index.Length * 2](_ => Empty);
      EmptyIndexes(bigger[..], hash);
      BigEnough(index[..], hash, m);
      TableBounds(queues[..], nextId, m);
      ghost var mm := map[];
      NoneBelow(queues[..], nextId, m);
      var i := 1;
      while i < queues.Length
        modifies bigger
        invariant 1 <= i <= queues.Length && Indexes(bigger[..], hash, mm) && Below(m, mm, i)
      {
        BelowSmaller(m, mm, i);
        BelowNext(queues[..], nextId, m, mm, i);
        if queues[i].Some? {
          var rc := InsertRaw(bigger, hash, queues[i].value, mm);
          mm := mm[queues[i].value.name := queues[i].value];
        }
        i := i + 1;
      }
      AllBelow(queues[..], nextId, m, mm);
      index := bigger;
    }

    /** Enters a descriptor, after growing the index when it would become seven tenths full. */
    method IndexInsert(d: Desc)
      requires Valid() && d.name !in m
      modifies this`index, index
      ensures index == old(index) || fresh(index)
      ensures Indexes(index[..], hash, m[d.name := d]) && (count + 1) * 10 < index.Length * 7
    {
      hide Indexes, TableIs;
      BigEnough(index[..], hash, m);
      if (count + 1) * 10 >= index.Length * 7 {
        Grow();
      }
      var rc := InsertRaw(index, hash, d, m);
    }

    /** Creates a queue. */
    method Create(name: string) returns (rc: int, id: nat)
      requires Valid()
      modifies this, index, queues
      ensures Valid() && (index == old(index) || fresh(index)) && (queues == old(queues) || fresh(queues))
      ensures rc == if |name| >= NAME_MAX then -1 else if name in old(Contents()) then -8
                    else if old(nextId) >= TABLE_CAPACITY then -4 else 0
      ensures rc == 0 ==> id == old(nextId) && Contents() == old(Contents())[name := Desc(name, id)]
      ensures rc == 0 ==> forall other :: other in old(Contents()) ==> old(Contents())[other].id != id
      ensures rc != 0 ==> Contents() == old(Contents())
    {
      hide Indexes, TableIs;
      TableBounds(queues[..], nextId, m);
      id := 0;
      if |name| >= NAME_MAX {
        return -1, id;
      }
      var i := FindCell(name);
      if i < index.Length {
        return -8, id;
      }
      if nextId >= queues.Length {
        rc := GrowTable();
        if rc != 0 {
          return;
        }
      }
      id := Enter(name);
      rc := 0;
    }

    /** Gives a new queue the next id and enters it in both tables. */
    method Enter(name: string) returns (id: nat)
      requires Valid() && nextId < queues.Length && name !in Contents()
      modifies this`index, this`nextId, this`count, this`m, index, queues
      ensures Valid() && (index == old(index) || fresh(index))
      ensures id == old(nextId) && Contents() == old(Contents())[name := Desc(name, id)]
      ensures forall other :: other in old(Contents()) ==> old(Contents())[other].id != id
    {
      hide Indexes, TableIs;
      id := nextId;
      var d := Desc(name, id);
      TableAdd(queues[..], nextId, m, name);
      IndexInsert(d);
      nextId := nextId + 1;
      queues[id] := Some(d);
      count := count + 1;
      m := m[name := d];
    }

    /** Doubles the table by id, up to its largest size. */
    method GrowTable() returns (rc: int)
      requires Valid() && nextId == queues.Length
      modifies this`queues
      ensures Valid() && (queues == old(queues) || fresh(queues))
      ensures rc == if old(queues.Length) >= TABLE_CAPACITY then -4 else 0
      ensures rc == 0 ==> nextId < queues.Length
    {
      hide Indexes, TableIs;
      TableBounds(queues[..], nextId, m);
      var ncap := queues.Length * 2;
      if ncap > TABLE_CAPACITY {
        ncap := TABLE_CAPACITY;
      }
      if ncap <= queues.Length {
        return -4;
      }
      var bigger := new Option<Desc>[ncap](j requires 0 <= j < ncap reads this, queues => if j < queues.Length then queues[j] else None);
      TableGrows(queues[..], nextId, m, bigger[..]);
      queues := bigger;
      rc := 0;
    }

    /** Removes a queue, unless somebody holds a handle of it. */
    method Remove(name: string, handles: nat) returns (rc: int)
      requires Valid()
      modifies this`count, this`m, index, queues
      ensures Valid()
      ensures rc == if name !in old(Contents()) then -3 else if handles != 0 then -10 else 0
      ensures Contents() == if rc == 0 then old(Contents()) - {name} else old(Contents())
    {
      hide Indexes, TableIs;
      var i := FindCell(name);
      if i == index.Length {
        return -3;
      }
      var id := index[i].d.id;
      if handles != 0 {
        return -10;
      }
      RemoveAt(index[..], hash, m, index[i].d, i);
      TableRemove(queues[..], nextId, m, name);
      NamesMatch(index[..], hash, m, name);
      index[i] := Tombstone;
      queues[id] := None;
      count := count - 1;
      m := m - {name};
      rc := 0;
    }

    /** The queue with this id. */
    method Get(id: nat) returns (r: Option<Desc>)
      requires Valid()
      ensures r.Some? ==> r.value.id == id && r.value.name in Contents() && Contents()[r.value.name] == r.value
      ensures r.None? ==> forall name :: name in Contents() ==> Contents()[name].id != id
    {
      if id == 0 || id >= queues.Length {
        return None;
      }
      r := queues[id];
    }
  }

  lemma LiveIsSize(table: seq<Cell>, hash: string -> nat, m: map<string, Desc>)
    requires Indexes(table, hash, m)
    ensures Live(table) == |m|
  {
  }

  /** The part of the map with ids below `i`. */
  predicate Below(m: map<string, Desc>, part: map<string, Desc>, i: nat) {
    (forall name :: name in part ==> name in m && part[name] == m[name] && m[name].id < i) &&
    (forall name :: name in m && m[name].id < i ==> name in part)
  }

  lemma BelowSmaller(m: map<string, Desc>, part: map<string, Desc>, i: nat)
    requires Below(m, part, i)
    ensures |part| <= |m|
  {
    assert part.Keys <= m.Keys;
    SubsetSize(part.Keys, m.Keys);
  }

  lemma {:induction false} SubsetSize<T>(a: set<T>, b: set<T>)
    requires a <= b
    ensures |a| <= |b|
  {
    if a != {} {
      var x :| x in a;
      SubsetSize(a - {x}, b - {x});
    }
  }

  lemma NoneBelow(queues: seq<Option<Desc>>, nextId: nat, m: map<string, Desc>)
    requires TableIs(queues, nextId, m)
    ensures Below(m, map[], 1)
  {
  }

  lemma BelowNext(queues: seq<Option<Desc>>, nextId: nat, m: map<string, Desc>, part: map<string, Desc>, i: nat)
    requires TableIs(queues, nextId, m) && Below(m, part, i) && i < |queues|
    ensures queues[i].None? ==> Below(m, part, i + 1)
    ensures queues[i].Some? ==> queues[i].value.name !in part && Below(m, part[queues[i].value.name := queues[i].value], i + 1)
  {
  }

  lemma AllBelow(queues: seq<Option<Desc>>, nextId: nat, m: map<string, Desc>, part: map<string, Desc>)
    requires TableIs(queues, nextId, m) && Below(m, part, |queues|)
    ensures part == m
  {
  }

  lemma NamesMatch(table: seq<Cell>, hash: string -> nat, m: map<string, Desc>, name: string)
    requires Indexes(table, hash, m) && name in m
    ensures m[name].name == name && |m - {name}| == |m| - 1
  {
    assert m == (m - {name})[name := m[name]];
  }

  lemma BigEnough(table: seq<Cell>, hash: string -> nat, m: map<string, Desc>)
    requires Indexes(table, hash, m)
    ensures 0 < |table| && |m| <= |table|
  {
    LiveBound(table);
  }
}
