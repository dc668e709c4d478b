// The contract cache: an overlay store in front of a persistent one.
module CacheStore {
  import opened Common
  import opened ByteStrings
  import opened SkipList
  import opened MemDBStore
  import opened Iterators
  import opened JoinIterator

  const STORAGE: Byte := 17

  // ------------------------------------------------ the persistent store

  /** The entries with the prefix, sorted: what the backend's own iterator walks through. */
  method SortedEntries(m: Store, prefix: Bytes) returns (entries: seq<(Bytes, Bytes)>)
    ensures IsSnapshot(entries, m, prefix)
  {
    hide Less, HasPrefix;
    var todo := set k | k in m.Keys && HasPrefix(k, prefix);
    entries := [];
    while todo != {}
      invariant todo <= m.Keys && forall k :: k in todo ==> HasPrefix(k, prefix)
      invariant forall i, j :: 0 <= i < j < |entries| ==> Less(entries[i].0, entries[j].0)
      invariant forall i :: 0 <= i < |entries| ==>
        entries[i].0 in m && m[entries[i].0] == entries[i].1 && HasPrefix(entries[i].0, prefix)
      invariant forall i, k :: 0 <= i < |entries| && k in todo ==> Less(entries[i].0, k)
      invariant forall k :: k in m && HasPrefix(k, prefix) ==>
        k in todo || exists i :: 0 <= i < |entries| && entries[i].0 == k
      decreases todo
    {
      var k := Least(todo);
      ghost var before := entries;
      entries := entries + [(k, m[k])];
      todo := todo - {k};
      forall x | x in m && HasPrefix(x, prefix) && x !in todo
        ensures exists i :: 0 <= i < |entries| && entries[i].0 == x
      {
        if x == k {
          assert entries[|entries| - 1].0 == k;
        } else {
          var i :| 0 <= i < |before| && before[i].0 == x;
          assert entries[i].0 == x;
        }
      }
    }
  }

  // ------------------------------------------------ flushing

  /** What the backend becomes when every overlay entry is written or, if empty, deleted. */
  function Flushed(m: Store, b: Store): Store {
    (map k | k in b.Keys + m.Keys && (k in m ==> m[k] != []) :: if k in m then m[k] else b[k])
  }

  function FlushOne(b: Store, e: (Bytes, Bytes)): Store {
    if e.1 == [] then b - {e.0} else b[e.0 := e.1]
  }

  /** Flushing shows through: with an empty overlay every read gives what it gave before. */
  lemma FlushKeepsReads(m: Store, b: Store, k: Bytes)
    ensures View(map[], Flushed(m, b), k) == View(m, b, k)
  {
  }

  /** The backend after the first i entries of a traversal. */
  ghost predicate FlushedSoFar(m: Store, b: Store, visited: seq<(Bytes, Bytes)>, i: nat, b': Store) {
    i <= |visited| &&
    forall k :: (if exists j :: 0 <= j < i && visited[j].0 == k then
                   (k in b' <==> k in m && m[k] != []) && (k in b' && k in m ==> b'[k] == m[k])
                 else (k in b' <==> k in b) && (k in b && k in b' ==> b'[k] == b[k]))
  }

  lemma FlushStep(m: Store, b: Store, visited: seq<(Bytes, Bytes)>, i: nat, b': Store)
    requires IsTraversal(m, visited) && FlushedSoFar(m, b, visited, i, b') && i < |visited|
    ensures FlushedSoFar(m, b, visited, i + 1, FlushOne(b', visited[i]))
  {
    hide Less;
    var b'' := FlushOne(b', visited[i]);
    forall k ensures
      if exists j :: 0 <= j < i + 1 && visited[j].0 == k then
        (k in b'' <==> k in m && m[k] != []) && (k in b'' && k in m ==> b''[k] == m[k])
      else (k in b'' <==> k in b) && (k in b && k in b'' ==> b''[k] == b[k])
    {
      if k == visited[i].0 {
        assert visited[i].0 == k;
      } else {
        assert (exists j :: 0 <= j < i + 1 && visited[j].0 == k) <==> (exists j :: 0 <= j < i && visited[j].0 == k);
      }
    }
  }

  lemma FlushDone(m: Store, b: Store, visited: seq<(Bytes, Bytes)>, b': Store)
    requires IsTraversal(m, visited) && FlushedSoFar(m, b, visited, |visited|, b')
    ensures b' == Flushed(m, b)
  {
    hide Less;
    forall k ensures k in b' <==> k in Flushed(m, b) {
      if k in m { var j :| 0 <= j < |visited| && visited[j].0 == k; }
    }
    forall k | k in b' ensures b'[k] == Flushed(m, b)[k] {
      if k in m { var j :| 0 <= j < |visited| && visited[j].0 == k; }
    }
  }

  // ------------------------------------------------ cleaning

  function Visible(m: Store, b: Store, prefix: Bytes): set<Bytes> {
    set k | k in m.Keys + b.Keys && HasPrefix(k, prefix) && View(m, b, k) != []
  }

  /** Deleting the first visible key leaves nothing visible up to it. */
  lemma DeleteFirst(m: Store, b: Store, prefix: Bytes, key: Bytes)
    requires IsFirstVisible(m, b, prefix, Start, key)
    ensures NothingBetween(m[key := []], b, prefix, Start, At(key))
    ensures |Visible(m[key := []], b, prefix)| < |Visible(m, b, prefix)|
  {
    hide Less, HasPrefix;
    var m' := m[key := []];
    forall k | HasPrefix(k, prefix) && !Above(At(key), k) ensures View(m', b, k) == [] {
    }
    var v, v' := Visible(m, b, prefix), Visible(m', b, prefix);
    assert key in v && key !in v';
    assert v' <= v - {key};
    SubsetCount(v', v - {key});
  }

  /** The iterator's view of a write to the overlay at the entry it shows. */
  lemma ShownWriteBehind(j: Join, m: Store, b: Store, prefix: Bytes, value: Bytes)
    requires j.Shown(m, b, prefix, At(j.key)) && !j.Phantom()
    ensures j.Shown(m[j.key := value], b, prefix, At(j.key))
  {
    hide Less, HasPrefix;
    LessIrreflexive(j.key);
    WriteBehind(m, prefix, At(j.key), j.key, value);
  }

  class CacheDB {
    var memdb: MemDB
    var backend: Store

    ghost predicate Valid()
      reads this, memdb
    {
      memdb.Valid()
    }

    ghost function Reads(k: Bytes): Bytes
      reads this, memdb
    {
      View(memdb.contents, backend, k)
    }

    constructor (backend: Store)
      ensures Valid() && fresh(memdb) && memdb.contents == map[] && this.backend == backend
    {
      memdb := new MemDB();
      this.backend := backend;
    }

    method Put(prefix: Byte, key: Bytes, value: Bytes)
      requires Valid()
      modifies memdb
      ensures Valid() && memdb.contents == old(memdb.contents)[[prefix] + key := value]
      ensures SameKeys(old(memdb.kvData), old(memdb.nodeData), old(memdb.nodes),
                       memdb.kvData, memdb.nodeData, memdb.nodes)
    {
      var height: nat :| 1 <= height <= MAX_HEIGHT;
      memdb.Put([prefix] + key, value, height);
    }

    method Delete(prefix: Byte, key: Bytes)
      requires Valid()
      modifies memdb
      ensures Valid() && memdb.contents == old(memdb.contents)[[prefix] + key := []]
      ensures SameKeys(old(memdb.kvData), old(memdb.nodeData), old(memdb.nodes),
                       memdb.kvData, memdb.nodeData, memdb.nodes)
    {
      var height: nat :| 1 <= height <= MAX_HEIGHT;
      memdb.Delete([prefix] + key, height);
    }

    /** The overlay's answer if it knows the key, tombstones included; the backend's otherwise. */
    method Get(prefix: Byte, key: Bytes) returns (found: bool, value: Bytes)
      requires Valid()
      modifies memdb`prevNode
      ensures Valid() && value == Reads([prefix] + key)
      ensures found <==> [prefix] + key in memdb.contents || [prefix] + key in backend
    {
      var k := [prefix] + key;
      var unknown;
      value, unknown := memdb.Get(k);
      found := true;
      if unknown {
        found := k in backend;
        value := if found then backend[k] else [];
      }
    }

    /** Writes the overlay into the backend and empties it: every read stays as it was. */
    method Commit()
      requires Valid()
      modifies this`backend, memdb
      ensures Valid() && memdb.contents == map[]
      ensures backend == Flushed(old(memdb.contents), old(backend))
      ensures forall k :: Reads(k) == old(Reads(k))
    {
      hide MemDB.Valid, IsTraversal, FlushedSoFar;
      ghost var m, b := memdb.contents, backend;
      var visited := memdb.ForEach();
      NothingFlushed(m, b, visited);
      for i := 0 to |visited|
        invariant FlushedSoFar(m, b, visited, i, backend)
        modifies this`backend
      {
        FlushStep(m, b, visited, i, backend);
        if |visited[i].1| == 0 {
          backend := backend - {visited[i].0};
        } else {
          backend := backend[visited[i].0 := visited[i].1];
        }
      }
      FlushDone(m, b, visited, backend);
      memdb.Reset();
      forall k ensures Reads(k) == old(Reads(k)) {
        FlushKeepsReads(m, b, k);
      }
    }

    method NewIterator(key: Bytes) returns (iter: JoinIter)
      requires Valid()
      ensures fresh(iter) && fresh(iter.backend) && fresh(iter.memdb) && iter.memdb.p == memdb
      ensures iter.prefix == [STORAGE] + key && iter.b == backend
      ensures iter.Wired() && !iter.nextMemEnd && !iter.nextBackEnd
    {
      hide MemDB.Valid, IsSnapshot;
      var prefix := [STORAGE] + key;
      var entries := SortedEntries(backend, prefix);
      SnapshotSorted(entries, backend, prefix);
      var back := new BackIter(entries);
      var mem := new DbIter(memdb, prefix);
      iter := new JoinIter(mem, back, prefix, backend);
    }

    /**
     * Deletes, while iterating over it, everything stored under the address: afterwards no key of the
     * address reads as anything, and no other key was touched.
     */
    method CleanContractStorageData(addr: Bytes)
      requires Valid()
      modifies memdb
      ensures Valid()
      ensures forall k :: HasPrefix(k, [STORAGE] + addr) ==> Reads(k) == []
      ensures forall k :: !HasPrefix(k, [STORAGE] + addr) ==>
        (k in memdb.contents <==> k in old(memdb.contents)) &&
        (k in memdb.contents && k in old(memdb.contents) ==> memdb.contents[k] == old(memdb.contents)[k])
    {
      hide MemDB.Valid, IsSnapshot, Less, HasPrefix, IsFirstVisible, NothingVisible, NothingBetween, View, Join.Shown,
        Visible;
      var iter := NewIterator(addr);
      ghost var prefix := [STORAGE] + addr;
      ghost var m0 := memdb.contents;
      var has := iter.First();
      while has
        invariant Valid() && iter.prefix == prefix && iter.b == backend && iter.memdb.p == memdb
        invariant has ==> iter.Valid() && iter.last == At(iter.key)
        invariant !iter.cut.mem && !iter.cut.back
        invariant has ==> IsFirstVisible(memdb.contents, backend, prefix, Start, iter.key)
        invariant !has ==> NothingVisible(memdb.contents, backend, prefix, Start)
        invariant OnlyUnder(m0, memdb.contents, prefix)
        modifies memdb, iter, iter.backend, iter.memdb
        decreases |Visible(memdb.contents, backend, prefix)|, has
      {
        ghost var m, k := memdb.contents, iter.key;
        Stripped(m, backend, prefix, addr, k);
        DeleteFirst(m, backend, prefix, k);
        label before:
        Delete(STORAGE, iter.key[1..]);
        StaysUnder(m0, m, prefix, k);
        IterSurvives(iter, k, old@before(iter.State()), m,
          old@before(memdb.kvData), old@before(memdb.nodeData), old@before(memdb.nodes));
        has := iter.Next();
        FirstAfterHidden(memdb.contents, backend, prefix, k);
      }
      AllGone(memdb.contents, backend, prefix);
      OnlyUnderMeans(m0, memdb.contents, prefix);
    }
  }

  lemma NothingFlushed(m: Store, b: Store, visited: seq<(Bytes, Bytes)>)
    ensures FlushedSoFar(m, b, visited, 0, b)
  {
  }

  lemma SnapshotSorted(entries: seq<(Bytes, Bytes)>, b: Store, prefix: Bytes)
    requires IsSnapshot(entries, b, prefix)
    ensures forall i, j :: 0 <= i < j < |entries| ==> Less(entries[i].0, entries[j].0)
  {
  }

  /** The two overlays differ at most under the prefix. */
  ghost predicate OnlyUnder(m: Store, m': Store, prefix: Bytes) {
    forall k :: !HasPrefix(k, prefix) ==>
      (k in m <==> k in m') && (k in m && k in m' ==> m[k] == m'[k])
  }

  lemma OnlyUnderMeans(m: Store, m': Store, prefix: Bytes)
    requires OnlyUnder(m, m', prefix)
    ensures forall k :: !HasPrefix(k, prefix) ==>
      (k in m' <==> k in m) && (k in m' && k in m ==> m'[k] == m[k])
  {
  }

  lemma StaysUnder(m0: Store, m: Store, prefix: Bytes, k: Bytes)
    requires OnlyUnder(m0, m, prefix) && HasPrefix(k, prefix)
    ensures OnlyUnder(m0, m[k := []], prefix)
  {
  }

  lemma AllGone(m: Store, b: Store, prefix: Bytes)
    requires NothingVisible(m, b, prefix, Start)
    ensures forall k :: HasPrefix(k, prefix) ==> View(m, b, k) == []
  {
  }

  /** The iterator hands keys out without the table byte; putting it back gives the key. */
  lemma Stripped(m: Store, b: Store, prefix: Bytes, addr: Bytes, k: Bytes)
    requires prefix == [STORAGE] + addr && IsFirstVisible(m, b, prefix, Start, k)
    ensures k != [] && [STORAGE] + k[1..] == k && HasPrefix(k, prefix)
  {
    assert k[0] == k[..|prefix|][0];
  }

  /** Deleting the entry shown leaves the iterator in order. */
  lemma IterSurvives(iter: JoinIter, k: Bytes, j: Join, m: Store, kv: Bytes, nd: seq<int>, nodes: seq<int>)
    requires iter.memdb.p.Valid() && iter.backend.Valid() && iter.memdb.prefix == iter.prefix && iter.prefix != []
    requires IsSnapshot(iter.backend.entries, iter.b, iter.prefix)
    requires iter.State() == j && iter.key == k && iter.last == At(k) && !iter.cut.mem && !iter.cut.back
    requires j.Shown(m, iter.b, iter.prefix, At(k)) && k != []
    requires iter.memdb.p.contents == m[k := []]
    requires iter.memdb.node == 0 ==> iter.memdb.key == [] && iter.memdb.value == []
    requires iter.memdb.node != 0 ==> Sits(kv, nd, nodes, iter.memdb.node, iter.memdb.key)
    requires iter.memdb.node != 0 ==> HasPrefix(iter.memdb.key, iter.prefix)
    requires SameKeys(kv, nd, nodes, iter.memdb.p.kvData, iter.memdb.p.nodeData, iter.memdb.p.nodes)
    ensures iter.Valid()
  {
    hide IsSnapshot, Less, HasPrefix, Shape, Represents, SameKeys, Sits, IsNext, NoneAbove;
    if iter.memdb.node != 0 {
      SitsStill(kv, nd, nodes, iter.memdb.p.kvData, iter.memdb.p.nodeData, iter.memdb.p.nodes, iter.memdb.p.maxHeight,
        iter.memdb.node, iter.memdb.key);
    }
    ShownWriteBehind(j, m, iter.b, iter.prefix, []);
  }
}
