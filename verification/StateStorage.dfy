// Committing a block's state changes: values, leaf indexes and the tree over them.
module StateStorage {
  import opened Common
  import opened ByteStrings
  import opened MerkleSpec
  import opened MerkleTree
  import BlockExecutor

  type Values = map<Bytes, Bytes>
  type Index = map<Bytes, nat>

  datatype StateChange = StateChange(key: Bytes, value: Bytes, prevTreeIndex: Option<nat>, treeIndex: nat)

  /** The index a key has, if any. */
  function Known(index: map<Bytes, nat>, key: Bytes): Option<nat> {
    if key in index then Some(index[key]) else None
  }

  // ------------------------------------------------ what a commit does, as a function of the change set

  ghost predicate UniqueKeys(sc: seq<StateChange>) {
    forall i, j :: 0 <= i < j < |sc| ==> sc[i].key != sc[j].key
  }

  ghost function Changes(sc: seq<StateChange>): Values {
    if sc == [] then map[] else Changes(sc[..|sc| - 1])[sc[|sc| - 1].key := sc[|sc| - 1].value]
  }

  /** The indexes a list of changes carries. */
  ghost function Numbers(sc: seq<StateChange>): Index {
    if sc == [] then map[] else Numbers(sc[..|sc| - 1])[sc[|sc| - 1].key := sc[|sc| - 1].treeIndex]
  }

  ghost predicate Listed(sc: seq<StateChange>, k: Bytes) { exists i :: 0 <= i < |sc| && sc[i].key == k }

  lemma {:induction false} ChangedKeys(sc: seq<StateChange>, k: Bytes)
    ensures k in Changes(sc) <==> Listed(sc, k)
    ensures k in Numbers(sc) <==> Listed(sc, k)
  {
    if sc != [] {
      var n := |sc| - 1;
      ChangedKeys(sc[..n], k);
      if Listed(sc[..n], k) {
        var i :| 0 <= i < n && sc[..n][i].key == k;
        assert sc[i].key == k;
      }
      if sc[n].key == k { assert Listed(sc, k); }
      if Listed(sc, k) && sc[n].key != k {
        var i :| 0 <= i < |sc| && sc[i].key == k;
        assert sc[..n][i].key == k;
      }
    }
  }

  lemma {:induction false} ChangeAt(sc: seq<StateChange>, i: nat)
    requires UniqueKeys(sc) && i < |sc|
    ensures sc[i].key in Changes(sc) && Changes(sc)[sc[i].key] == sc[i].value
    ensures sc[i].key in Numbers(sc) && Numbers(sc)[sc[i].key] == sc[i].treeIndex
  {
    var n := |sc| - 1;
    if i < n {
      assert sc[i].key != sc[n].key && sc[..n][i] == sc[i];
      ChangeAt(sc[..n], i);
    }
  }

  lemma ChangesAre(sc: seq<StateChange>)
    requires UniqueKeys(sc)
    ensures forall k :: k in Changes(sc) <==> Listed(sc, k)
    ensures Numbers(sc).Keys == Changes(sc).Keys
    ensures forall i :: 0 <= i < |sc| ==> sc[i].key in Changes(sc)
    ensures forall i :: 0 <= i < |sc| ==> Changes(sc)[sc[i].key] == sc[i].value
    ensures forall i :: 0 <= i < |sc| ==> Numbers(sc)[sc[i].key] == sc[i].treeIndex
  {
    hide Changes, Numbers, Listed;
    forall k ensures k in Changes(sc) <==> Listed(sc, k) ensures k in Numbers(sc) <==> Listed(sc, k) {
      ChangedKeys(sc, k);
    }
    forall i | 0 <= i < |sc|
      ensures sc[i].key in Changes(sc) && Changes(sc)[sc[i].key] == sc[i].value
      ensures sc[i].key in Numbers(sc) && Numbers(sc)[sc[i].key] == sc[i].treeIndex
    {
      ChangeAt(sc, i);
    }
  }

  function NewKeys(index: Index, keys: set<Bytes>): set<Bytes> { keys - index.Keys }

  /** How many of the keys come before k. */
  ghost function Rank(keys: set<Bytes>, k: Bytes): nat {
    |Before(keys, k)|
  }

  ghost function Before(keys: set<Bytes>, k: Bytes): set<Bytes> {
    set x | x in keys && Less(x, k)
  }

  ghost function IndexAfter(index: Index, count: nat, keys: set<Bytes>): Index {
    map k | k in index.Keys + keys :: if k in index then index[k] else count + Rank(NewKeys(index, keys), k)
  }

  /** The state a storage stands for. */
  datatype Image = Image(values: Values, index: Index, leaves: seq<Bytes>)

  /** Keys and leaves correspond one to one, and each leaf is the hash of its key's value. */
  ghost predicate WellIndexed(h: Hash, s: Image) {
    && s.index.Keys == s.values.Keys && OneToOne(s.index, |s.leaves|) && NoGaps(s.index, |s.leaves|)
    && forall k :: k in s.index ==> s.leaves[s.index[k]] == h(s.values[k])
  }

  ghost predicate OneToOne(index: Index, n: nat) {
    && (forall k :: k in index ==> index[k] < n)
    && (forall k, k' :: k in index && k' in index && index[k] == index[k'] ==> k == k')
  }

  ghost predicate NoGaps(index: Index, n: nat) {
    forall i: nat :: i < n ==> Owned(index, i)
  }

  ghost predicate Owned(index: Index, i: nat) { exists k :: k in index && index[k] == i }

  ghost predicate Committed(h: Hash, before: Image, changes: Values, after: Image) {
    && WellIndexed(h, after)
    && after.values == before.values + changes
    && after.index == IndexAfter(before.index, |before.leaves|, changes.Keys)
    && |after.leaves| == |before.leaves| + |NewKeys(before.index, changes.Keys)|
  }

  /** A commit leaves every index it finds. */
  lemma IndexStable(h: Hash, before: Image, changes: Values, after: Image, k: Bytes)
    requires Committed(h, before, changes, after) && k in before.index
    ensures k in after.index && after.index[k] == before.index[k]
  {
  }

  /** Values and indexes determine the leaves. */
  lemma LeavesDetermined(h: Hash, x: Image, y: Image)
    requires WellIndexed(h, x) && WellIndexed(h, y) && |x.leaves| == |y.leaves|
    requires x.index == y.index && x.values == y.values
    ensures x == y
  {
    forall i: nat | i < |x.leaves| ensures x.leaves[i] == y.leaves[i] {
      assert Owned(x.index, i);
      var k :| k in x.index && x.index[k] == i;
    }
  }

  /**
   * Two replicas with the same prior state that execute the same block, however their workers
   * interleave and in whatever order their change lists come out, end in the same state: same leaf
   * indexes, same leaf count, same root.
   */
  lemma ReplicasAgree(codes: seq<BlockExecutor.Code>, base: Values, run: seq<BlockExecutor.Exec>,
                      run': seq<BlockExecutor.Exec>, h: Hash, b: nat, before: Image,
                      sc: seq<StateChange>, sc': seq<StateChange>, x: Image, y: Image)
    requires BlockExecutor.IsRun(codes, base, run) && BlockExecutor.IsRun(codes, base, run')
    requires run[|run| - 1].mergeIdx == |codes| == run'[|run'| - 1].mergeIdx
    requires UniqueKeys(sc) && Changes(sc) == run[|run| - 1].root
    requires UniqueKeys(sc') && Changes(sc') == run'[|run'| - 1].root
    requires Committed(h, before, Changes(sc), x) && Committed(h, before, Changes(sc'), y)
    requires b >= 2 && x.leaves != []
    ensures x.index == y.index && |x.leaves| == |y.leaves|
    ensures y.leaves != [] && RootOf(h, b, x.leaves) == RootOf(h, b, y.leaves)
  {
    hide BlockExecutor.IsRun, RootOf, WellIndexed, IndexAfter, Changes;
    BlockExecutor.InterleavingIsIrrelevant(codes, base, run, run');
    LeavesDetermined(h, x, y);
  }

  // ------------------------------------------------ ranks

  lemma {:induction false} PrefixCount(sorted: seq<Bytes>, j: nat)
    requires StrictlySorted(sorted) && j <= |sorted|
    ensures |set i | 0 <= i < j :: sorted[i]| == j
  {
    var s := set i | 0 <= i < j :: sorted[i];
    if j > 0 {
      PrefixCount(sorted, j - 1);
      var t := set i | 0 <= i < j - 1 :: sorted[i];
      assert s == t + {sorted[j - 1]};
      assert sorted[j - 1] !in t by {
        LessIrreflexive(sorted[j - 1]);
      }
    } else {
      assert s == {};
    }
  }

  /** In sorted order the rank of a key is its place. */
  lemma RankIsPlace(keys: set<Bytes>, sorted: seq<Bytes>, j: nat)
    requires StrictlySorted(sorted) && j < |sorted|
    requires forall k :: k in keys <==> k in sorted
    ensures Rank(keys, sorted[j]) == j
  {
    hide Less;
    var s := set i | 0 <= i < j :: sorted[i];
    forall x ensures x in Before(keys, sorted[j]) <==> x in s {
      if x in Before(keys, sorted[j]) {
        var i :| 0 <= i < |sorted| && sorted[i] == x;
        if i >= j { NotBefore(sorted, i, j); }
      }
    }
    assert Before(keys, sorted[j]) == s;
    PrefixCount(sorted, j);
  }

  lemma NotBefore(sorted: seq<Bytes>, i: nat, j: nat)
    requires StrictlySorted(sorted) && j <= i < |sorted|
    ensures !Less(sorted[i], sorted[j])
  {
    if i == j { LessIrreflexive(sorted[j]); } else { LessAsymmetric(sorted[j], sorted[i]); }
  }

  lemma SortedCount(keys: set<Bytes>, sorted: seq<Bytes>)
    requires StrictlySorted(sorted) && forall k :: k in keys <==> k in sorted
    ensures |keys| == |sorted|
  {
    PrefixCount(sorted, |sorted|);
    assert keys == set i | 0 <= i < |sorted| :: sorted[i];
  }

  method SortKeys(keys: set<Bytes>) returns (sorted: seq<Bytes>)
    ensures StrictlySorted(sorted) && forall k :: k in keys <==> k in sorted
  {
    hide Less;
    var todo := keys;
    sorted := [];
    while todo != {}
      invariant todo <= keys && StrictlySorted(sorted)
      invariant forall k :: k in keys <==> k in todo || k in sorted
      invariant forall i, k :: 0 <= i < |sorted| && k in todo ==> Less(sorted[i], k)
      decreases todo
    {
      var k := Least(todo);
      sorted := sorted + [k];
      todo := todo - {k};
    }
  }

  // ------------------------------------------------ assigning indexes

  ghost predicate Assigned(sc: StateChange, before: StateChange, count: nat, fresh_: set<Bytes>) {
    && sc.key == before.key && sc.value == before.value && sc.prevTreeIndex == before.prevTreeIndex
    && sc.treeIndex == if sc.prevTreeIndex.Some? then sc.prevTreeIndex.value else count + Rank(fresh_, sc.key)
  }

  ghost function Fresh(sc: seq<StateChange>): set<Bytes> {
    set i | 0 <= i < |sc| && sc[i].prevTreeIndex.None? :: sc[i].key
  }

  /** First pass: known keys keep their index, new ones are collected. */
  method KeepKnown(sc: seq<StateChange>) returns (out: seq<StateChange>, newKeys: set<Bytes>, at: map<Bytes, nat>)
    requires UniqueKeys(sc)
    ensures |out| == |sc| && newKeys == Fresh(sc) && newKeys == at.Keys
    ensures forall i :: 0 <= i < |sc| ==> out[i].key == sc[i].key && out[i].value == sc[i].value
    ensures forall i :: 0 <= i < |sc| ==> out[i].prevTreeIndex == sc[i].prevTreeIndex
    ensures forall i :: 0 <= i < |sc| && sc[i].prevTreeIndex.Some? ==> out[i].treeIndex == sc[i].prevTreeIndex.value
    ensures forall k :: k in at ==> at[k] < |sc| && sc[at[k]].key == k && sc[at[k]].prevTreeIndex.None?
  {
    out, newKeys, at := sc, {}, map[];
    for i := 0 to |sc|
      invariant |out| == |sc| && newKeys == Fresh(sc[..i]) && newKeys == at.Keys
      invariant forall j :: 0 <= j < |sc| ==> out[j].key == sc[j].key && out[j].value == sc[j].value
      invariant forall j :: 0 <= j < |sc| ==> out[j].prevTreeIndex == sc[j].prevTreeIndex
      invariant forall j :: 0 <= j < i && sc[j].prevTreeIndex.Some? ==> out[j].treeIndex == sc[j].prevTreeIndex.value
      invariant forall k :: k in at ==> at[k] < i && sc[at[k]].key == k && sc[at[k]].prevTreeIndex.None?
    {
      FreshGrows(sc, i);
      if sc[i].prevTreeIndex.Some? {
        out := out[i := out[i].(treeIndex := sc[i].prevTreeIndex.value)];
      } else {
        newKeys := newKeys + {sc[i].key};
        at := at[sc[i].key := i];
      }
    }
    assert sc[..|sc|] == sc;
  }

  lemma FreshGrows(sc: seq<StateChange>, i: nat)
    requires i < |sc|
    ensures Fresh(sc[..i + 1]) == Fresh(sc[..i]) + if sc[i].prevTreeIndex.None? then {sc[i].key} else {}
  {
    var a, b := sc[..i + 1], sc[..i];
    assert forall j :: 0 <= j < i ==> a[j] == b[j];
    forall k | k in Fresh(b) ensures k in Fresh(a) {
      var j :| 0 <= j < |b| && b[j].prevTreeIndex.None? && b[j].key == k;
      assert a[j].key == k;
    }
    if sc[i].prevTreeIndex.None? { assert a[i].key in Fresh(a); }
  }

  /** New keys are numbered in sorted order after the leaves there are, whatever order the list has. */
  method SetNewTreeIndexes(sc: seq<StateChange>, prevLeafCount: nat)
    returns (out: seq<StateChange>, leafCount: nat, ghost sorted: seq<Bytes>)
    requires UniqueKeys(sc)
    ensures |out| == |sc| && forall i :: 0 <= i < |sc| ==> Assigned(out[i], sc[i], prevLeafCount, Fresh(sc))
    ensures leafCount == prevLeafCount + |Fresh(sc)|
    ensures StrictlySorted(sorted) && |sorted| == |Fresh(sc)| && forall k :: k in Fresh(sc) <==> k in sorted
  {
    hide Fresh, Less, Rank, StrictlySorted;
    var known, newKeys, at := KeepKnown(sc);
    var keys := SortKeys(newKeys);
    sorted := keys;
    SortedCount(newKeys, keys);
    out, leafCount := NumberFresh(known, newKeys, keys, at, prevLeafCount);
    forall i | 0 <= i < |sc| ensures Assigned(out[i], sc[i], prevLeafCount, newKeys) {
      if sc[i].prevTreeIndex.None? {
        FreshSpot(sc, at, i);
        var m :| 0 <= m < |keys| && keys[m] == sc[i].key;
        assert out[at[keys[m]]].treeIndex == prevLeafCount + Rank(newKeys, keys[m]);
      }
    }
  }

  /** Second pass: the new keys, in order, get the next numbers. */
  method NumberFresh(sc: seq<StateChange>, ghost newKeys: set<Bytes>, keys: seq<Bytes>, at: map<Bytes, nat>,
                     prevLeafCount: nat)
    returns (out: seq<StateChange>, leafCount: nat)
    requires StrictlySorted(keys) && newKeys == at.Keys && forall k :: k in newKeys <==> k in keys
    requires forall k :: k in at ==> at[k] < |sc| && sc[at[k]].key == k && sc[at[k]].prevTreeIndex.None?
    ensures |out| == |sc| && leafCount == prevLeafCount + |keys|
    ensures forall i :: 0 <= i < |sc| ==> out[i] == sc[i].(treeIndex := out[i].treeIndex)
    ensures forall i :: 0 <= i < |sc| && sc[i].prevTreeIndex.Some? ==> out[i] == sc[i]
    ensures forall m :: 0 <= m < |keys| ==> out[at[keys[m]]].treeIndex == prevLeafCount + Rank(newKeys, keys[m])
  {
    hide Less, Rank, StrictlySorted;
    out, leafCount := sc, prevLeafCount;
    for j := 0 to |keys|
      invariant |out| == |sc| && leafCount == prevLeafCount + j
      invariant forall i :: 0 <= i < |sc| ==> out[i] == sc[i].(treeIndex := out[i].treeIndex)
      invariant forall i :: 0 <= i < |sc| && sc[i].prevTreeIndex.Some? ==> out[i] == sc[i]
      invariant forall m :: 0 <= m < j ==> out[at[keys[m]]].treeIndex == prevLeafCount + Rank(newKeys, keys[m])
    {
      RankIsPlace(newKeys, keys, j);
      DistinctSpots(sc, keys, at, j);
      var i := at[keys[j]];
      out := out[i := out[i].(treeIndex := leafCount)];
      leafCount := leafCount + 1;
    }
  }

  lemma DistinctSpots(sc: seq<StateChange>, keys: seq<Bytes>, at: map<Bytes, nat>, j: nat)
    requires StrictlySorted(keys) && j < |keys|
    requires forall m :: 0 <= m < |keys| ==> keys[m] in at && at[keys[m]] < |sc| && sc[at[keys[m]]].key == keys[m]
    ensures forall m :: 0 <= m < j ==> at[keys[m]] != at[keys[j]]
  {
    forall m | 0 <= m < j ensures at[keys[m]] != at[keys[j]] {
      LessIrreflexive(keys[j]);
    }
  }

  lemma FreshSpot(sc: seq<StateChange>, at: map<Bytes, nat>, i: nat)
    requires UniqueKeys(sc) && i < |sc| && sc[i].prevTreeIndex.None? && at.Keys == Fresh(sc)
    requires forall k :: k in at ==> at[k] < |sc| && sc[at[k]].key == k
    ensures sc[i].key in at && at[sc[i].key] == i
  {
    assert sc[i].key in Fresh(sc);
  }

  // ------------------------------------------------ the indexes after a commit

  /** The order in which new keys get their numbers. */
  ghost predicate Ordered(keys: set<Bytes>, sorted: seq<Bytes>) {
    StrictlySorted(sorted) && |sorted| == |keys| && forall k :: k in keys <==> k in sorted
  }

  lemma PlaceOf(index: Index, count: nat, keys: set<Bytes>, sorted: seq<Bytes>, k: Bytes) returns (j: nat)
    requires Ordered(NewKeys(index, keys), sorted) && k in NewKeys(index, keys)
    ensures j < |sorted| && sorted[j] == k && IndexAfter(index, count, keys)[k] == count + j
  {
    hide Less;
    j :| 0 <= j < |sorted| && sorted[j] == k;
    RankIsPlace(NewKeys(index, keys), sorted, j);
  }

  /** Indexes stay one to one and without gaps. */
  lemma StillOneToOne(h: Hash, s: Image, keys: set<Bytes>, sorted: seq<Bytes>, k: Bytes, k': Bytes)
    requires WellIndexed(h, s) && Ordered(NewKeys(s.index, keys), sorted)
    requires k in s.index.Keys + keys && k' in s.index.Keys + keys
    ensures var after := IndexAfter(s.index, |s.leaves|, keys);
      && after[k] < |s.leaves| + |sorted|
      && (after[k] == after[k'] ==> k == k')
  {
    hide Less, Rank, Ordered;
    if k !in s.index { var j := PlaceOf(s.index, |s.leaves|, keys, sorted, k); }
    if k' !in s.index { var j := PlaceOf(s.index, |s.leaves|, keys, sorted, k'); }
  }

  lemma StillOwned(h: Hash, s: Image, keys: set<Bytes>, sorted: seq<Bytes>, i: nat)
    requires WellIndexed(h, s) && Ordered(NewKeys(s.index, keys), sorted) && i < |s.leaves| + |sorted|
    ensures Owned(IndexAfter(s.index, |s.leaves|, keys), i)
  {
    hide Less, Rank, OneToOne;
    if i < |s.leaves| {
      assert Owned(s.index, i);
      var k :| k in s.index && s.index[k] == i;
      assert IndexAfter(s.index, |s.leaves|, keys)[k] == i;
    } else {
      OwnedByNew(s.index, |s.leaves|, keys, sorted, i - |s.leaves|);
    }
  }

  lemma OwnedByNew(index: Index, count: nat, keys: set<Bytes>, sorted: seq<Bytes>, j: nat)
    requires Ordered(NewKeys(index, keys), sorted) && j < |sorted|
    ensures Owned(IndexAfter(index, count, keys), count + j)
  {
    hide Less, Rank;
    var k := sorted[j];
    RankIsPlace(NewKeys(index, keys), sorted, j);
    assert k in NewKeys(index, keys);
    assert IndexAfter(index, count, keys)[k] == count + j;
  }

  // ------------------------------------------------ the leaves after a commit

  /** A change list ready for the tree: indexes looked up, then assigned. */
  ghost predicate Numbered(s: Image, sc: seq<StateChange>) {
    && UniqueKeys(sc)
    && forall i :: 0 <= i < |sc| ==> IsNumbered(s, Changes(sc).Keys, sc[i])
  }

  ghost predicate IsNumbered(s: Image, keys: set<Bytes>, sc: StateChange) {
    sc.key in keys && sc.treeIndex == IndexAfter(s.index, |s.leaves|, keys)[sc.key]
  }

  ghost predicate NodesOf(h: Hash, sc: seq<StateChange>, ns: seq<Node>) {
    |ns| == |sc| && forall i :: 0 <= i < |sc| ==> ns[i] == Node(Position(0, sc[i].treeIndex), h(sc[i].value))
  }

  ghost function Padded(s: Image, n: nat): (r: seq<Bytes>)
    ensures |r| == |s.leaves| + n
  {
    s.leaves + seq(n, i => [])
  }

  lemma NodesDistinct(h: Hash, s: Image, sc: seq<StateChange>, ns: seq<Node>, sorted: seq<Bytes>)
    requires WellIndexed(h, s) && Numbered(s, sc) && NodesOf(h, sc, ns)
    requires Ordered(NewKeys(s.index, Changes(sc).Keys), sorted)
    ensures Distinct(ns)
    ensures forall k :: 0 <= k < |ns| ==> ns[k].position.level == 0 && ns[k].position.index < |s.leaves| + |sorted|
  {
    hide WellIndexed, Ordered, IndexAfter, NewKeys;
    var keys := Changes(sc).Keys;
    forall i | 0 <= i < |ns| ensures ns[i].position.index < |s.leaves| + |sorted| {
      StillOneToOne(h, s, keys, sorted, sc[i].key, sc[i].key);
    }
    forall i, j | 0 <= i < j < |ns| ensures ns[i].position != ns[j].position {
      StillOneToOne(h, s, keys, sorted, sc[i].key, sc[j].key);
    }
  }

  /** Every place is a change's or was there before. */
  lemma PlacesSupplied(h: Hash, s: Image, sc: seq<StateChange>, ns: seq<Node>, sorted: seq<Bytes>, i: nat)
    requires WellIndexed(h, s) && Numbered(s, sc) && NodesOf(h, sc, ns)
    requires Ordered(NewKeys(s.index, Changes(sc).Keys), sorted)
    requires i < |s.leaves| + |sorted| && i !in Indexes(ns)
    ensures i < |s.leaves|
  {
    hide WellIndexed, Ordered;
    var keys := Changes(sc).Keys;
    if i >= |s.leaves| {
      StillOwned(h, s, keys, sorted, i);
      var k :| k in IndexAfter(s.index, |s.leaves|, keys) && IndexAfter(s.index, |s.leaves|, keys)[k] == i;
      OldIndexesSmall(h, s, k);
      PlaceTaken(sc, ns, h, k);
    }
  }

  lemma PlaceTaken(sc: seq<StateChange>, ns: seq<Node>, h: Hash, k: Bytes)
    requires UniqueKeys(sc) && NodesOf(h, sc, ns)
    ensures k in Changes(sc) ==> exists m :: 0 <= m < |sc| && sc[m].key == k && ns[m].position.index in Indexes(ns)
  {
    ChangesAre(sc);
    if k in Changes(sc) {
      assert Listed(sc, k);
      var m :| 0 <= m < |sc| && sc[m].key == k;
      assert ns[m].position.index in Indexes(ns);
    }
  }

  lemma OldIndexesSmall(h: Hash, s: Image, k: Bytes)
    requires WellIndexed(h, s)
    ensures k in s.index ==> s.index[k] < |s.leaves|
  {
  }

  lemma NewLeavesSupplied(h: Hash, s: Image, sc: seq<StateChange>, ns: seq<Node>, sorted: seq<Bytes>)
    requires WellIndexed(h, s) && Numbered(s, sc) && NodesOf(h, sc, ns) && sc != []
    requires Ordered(NewKeys(s.index, Changes(sc).Keys), sorted)
    ensures Distinct(ns)
    ensures forall k :: 0 <= k < |ns| ==> ns[k].position.level == 0 && ns[k].position.index < |Padded(s, |sorted|)|
    ensures Supplies(s.leaves, Overlay(Padded(s, |sorted|), ns), ns)
  {
    hide WellIndexed, Ordered, Overlay, Numbered;
    NodesDistinct(h, s, sc, ns, sorted);
    var new_ := Overlay(Padded(s, |sorted|), ns);
    OverlayIs(Padded(s, |sorted|), ns);
    forall i: nat | i < |new_| && i !in Indexes(ns) ensures i < |s.leaves| && s.leaves[i] == new_[i] {
      PlacesSupplied(h, s, sc, ns, sorted, i);
      assert new_[i] == Padded(s, |sorted|)[i];
    }
    assert ns[0].position.index < |new_|;
    assert OfRow(ns, 0, new_);
  }

  /** A key that did not change has a leaf that did not change. */
  lemma Untouched(h: Hash, s: Image, sc: seq<StateChange>, ns: seq<Node>, sorted: seq<Bytes>, k: Bytes)
    requires WellIndexed(h, s) && Numbered(s, sc) && NodesOf(h, sc, ns)
    requires Ordered(NewKeys(s.index, Changes(sc).Keys), sorted)
    requires k in s.index && k !in Changes(sc)
    ensures s.index[k] !in Indexes(ns)
  {
    hide Ordered, NewKeys, WellIndexed;
    var keys := Changes(sc).Keys;
    forall m | 0 <= m < |ns| ensures ns[m].position.index != s.index[k] {
      StillOneToOne(h, s, keys, sorted, k, sc[m].key);
      assert sc[m].key in Changes(sc);
    }
  }

  /** The leaf of every key is the hash of its value. */
  lemma LeafRight(h: Hash, s: Image, sc: seq<StateChange>, ns: seq<Node>, sorted: seq<Bytes>, k: Bytes)
    requires WellIndexed(h, s) && Numbered(s, sc) && NodesOf(h, sc, ns) && sc != []
    requires Ordered(NewKeys(s.index, Changes(sc).Keys), sorted)
    requires forall k :: 0 <= k < |ns| ==> ns[k].position.level == 0 && ns[k].position.index < |Padded(s, |sorted|)|
    requires k in s.index.Keys + Changes(sc).Keys
    ensures var at := IndexAfter(s.index, |s.leaves|, Changes(sc).Keys)[k];
      && at < |Overlay(Padded(s, |sorted|), ns)|
      && Overlay(Padded(s, |sorted|), ns)[at] == h((s.values + Changes(sc))[k])
  {
    hide Ordered, Overlay, NewKeys, WellIndexed, Changes, IndexAfter, Numbered, NodesOf, Indexes, Padded, Distinct;
    StillOneToOne(h, s, Changes(sc).Keys, sorted, k, k);
    NodesDistinct(h, s, sc, ns, sorted);
    OverlayIs(Padded(s, |sorted|), ns);
    var new_ := Overlay(Padded(s, |sorted|), ns);
    if k in Changes(sc) {
      LeafChanged(h, s, sc, ns, new_, k);
    } else {
      Untouched(h, s, sc, ns, sorted, k);
      LeafKept(h, s, Changes(sc), |sorted|, new_, Indexes(ns), k);
    }
  }

  lemma LeafChanged(h: Hash, s: Image, sc: seq<StateChange>, ns: seq<Node>, new_: seq<Bytes>, k: Bytes)
    requires Numbered(s, sc) && NodesOf(h, sc, ns) && k in Changes(sc)
    requires forall m :: 0 <= m < |ns| ==> ns[m].position.index < |new_|
    requires forall m :: 0 <= m < |ns| ==> new_[ns[m].position.index] == ns[m].data
    ensures var at := IndexAfter(s.index, |s.leaves|, Changes(sc).Keys)[k];
      at < |new_| && new_[at] == h((s.values + Changes(sc))[k])
  {
    hide Changes, Numbers, NewKeys, Rank;
    ChangedKeys(sc, k);
    var m :| 0 <= m < |sc| && sc[m].key == k;
    ChangeAt(sc, m);
    assert IsNumbered(s, Changes(sc).Keys, sc[m]);
    assert new_[ns[m].position.index] == ns[m].data;
  }

  lemma LeafKept(h: Hash, s: Image, changes: Values, n: nat, new_: seq<Bytes>, touched: set<nat>, k: Bytes)
    requires WellIndexed(h, s) && k in s.index && k !in changes && s.index[k] !in touched
    requires |new_| == |s.leaves| + n
    requires forall i: nat :: i < |s.leaves| + n && i !in touched ==> new_[i] == Padded(s, n)[i]
    ensures var at := IndexAfter(s.index, |s.leaves|, changes.Keys)[k];
      at < |new_| && new_[at] == h((s.values + changes)[k])
  {
    hide NewKeys, Rank, NoGaps;
    assert new_[s.index[k]] == Padded(s, n)[s.index[k]];
  }

  lemma IndexesRight(h: Hash, s: Image, keys: set<Bytes>, sorted: seq<Bytes>)
    requires WellIndexed(h, s) && Ordered(NewKeys(s.index, keys), sorted)
    ensures OneToOne(IndexAfter(s.index, |s.leaves|, keys), |s.leaves| + |sorted|)
    ensures NoGaps(IndexAfter(s.index, |s.leaves|, keys), |s.leaves| + |sorted|)
  {
    hide Ordered, WellIndexed, Owned, NewKeys;
    var after := IndexAfter(s.index, |s.leaves|, keys);
    forall k, k' | k in after && k' in after
      ensures after[k] < |s.leaves| + |sorted| && (after[k] == after[k'] ==> k == k')
    {
      StillOneToOne(h, s, keys, sorted, k, k');
    }
    forall i: nat | i < |s.leaves| + |sorted| ensures Owned(after, i) {
      StillOwned(h, s, keys, sorted, i);
    }
  }

  lemma CommitIsRight(h: Hash, s: Image, sc: seq<StateChange>, ns: seq<Node>, sorted: seq<Bytes>)
    requires WellIndexed(h, s) && Numbered(s, sc) && NodesOf(h, sc, ns) && sc != []
    requires Ordered(NewKeys(s.index, Changes(sc).Keys), sorted)
    requires forall k :: 0 <= k < |ns| ==> ns[k].position.level == 0 && ns[k].position.index < |Padded(s, |sorted|)|
    ensures Committed(h, s, Changes(sc), Image(s.values + Changes(sc),
      IndexAfter(s.index, |s.leaves|, Changes(sc).Keys), Overlay(Padded(s, |sorted|), ns)))
  {
    hide Ordered, Overlay, Numbered, NodesOf, OneToOne, NoGaps, NewKeys, Rank, Changes;
    var keys := Changes(sc).Keys;
    var after := IndexAfter(s.index, |s.leaves|, keys);
    var new_ := Overlay(Padded(s, |sorted|), ns);
    OrderedSize(NewKeys(s.index, keys), sorted);
    IndexesRight(h, s, keys, sorted);
    forall k | k in after ensures after[k] < |new_| && new_[after[k]] == h((s.values + Changes(sc))[k]) {
      LeafRight(h, s, sc, ns, sorted, k);
    }
  }

  lemma OrderedSize(keys: set<Bytes>, sorted: seq<Bytes>)
    requires Ordered(keys, sorted)
    ensures |sorted| == |keys|
  {
  }

  // ------------------------------------------------ the storage

  class Storage {
    const tree: Tree
    var values: Values
    var index: Index

    /** The leaves of the tree, first to last. */
    ghost var leaves: seq<Bytes>

    ghost function Abs(): Image
      reads this
    {
      Image(values, index, leaves)
    }

    ghost predicate Valid()
      reads this, tree.store
    {
      tree.b >= 2 && tree.store.StandsFor(tree.h, tree.b, leaves) && WellIndexed(tree.h, Abs())
    }

    constructor (h: Hash, branchFactor: nat)
      ensures Valid() && fresh(tree.store) && values == map[] && leaves == []
    {
      var b := if branchFactor < 2 then 2 else branchFactor;
      var store := new MapStore(h, b);
      tree := new Tree(store, h, branchFactor);
      values, index, leaves := map[], map[], [];
    }

    method LoadPrevTreeIndexes(sc: seq<StateChange>) returns (out: seq<StateChange>)
      ensures |out| == |sc| && forall i :: 0 <= i < |sc| ==>
        out[i] == sc[i].(prevTreeIndex := Known(index, sc[i].key))
    {
      out := sc;
      for i := 0 to |sc|
        invariant |out| == |sc| && forall j :: i <= j < |sc| ==> out[j] == sc[j]
        invariant forall j :: 0 <= j < i ==>
          out[j] == sc[j].(prevTreeIndex := Known(index, sc[j].key))
      {
        out := out[i := out[i].(prevTreeIndex := Known(index, sc[i].key))];
      }
    }

    /** Workers hash the values and fill the slots in any order. */
    method ComputeUpdatedTreeNodes(sc: seq<StateChange>) returns (ns: seq<Node>)
      ensures NodesOf(tree.h, sc, ns)
    {
      ns := seq(|sc|, i => Node(Position(0, 0), []));
      var todo := set i {:trigger ns[i]} | 0 <= i < |ns|;
      while todo != {}
        invariant |ns| == |sc| && forall i :: i in todo ==> 0 <= i < |sc|
        invariant forall i :: 0 <= i < |sc| && i !in todo ==>
          ns[i] == Node(Position(0, sc[i].treeIndex), tree.h(sc[i].value))
        decreases todo
      {
        var i :| i in todo;
        todo := todo - {i};
        ns := ns[i := Node(Position(0, sc[i].treeIndex), tree.h(sc[i].value))];
      }
    }

    /**
     * Commits a block's changes: the values, the indexes of new keys and the tree. The outcome depends
     * on the set of changes only, and the root is that of the whole new leaf sequence.
     */
    method Commit(changes: seq<StateChange>) returns (leafCount: nat, root: Option<Bytes>)
      requires Valid() && UniqueKeys(changes)
      modifies this, tree.store
      ensures Valid()
      ensures changes == [] ==> Abs() == old(Abs()) && root == None
      ensures changes != [] ==> Committed(tree.h, old(Abs()), Changes(changes), Abs())
      ensures changes != [] ==> leaves != [] && leafCount == |leaves| && root == Some(RootOf(tree.h, tree.b, leaves))
    {
      hide Holds, WellIndexed, Committed, RootOf, Covers, Supplies, SuppliesLast, OfRow, Overlay, Changes, UniqueKeys,
        NodesOf, Numbered, Ordered, Height, IndexAfter, NewKeys, Fresh, PutAll, Padded, StrictlySorted, Numbers;
      if changes == [] {
        return tree.store.leafCount, None;
      }
      ghost var s := Abs();
      var sc := LoadPrevTreeIndexes(changes);
      SameChanges(changes, sc);
      var out, count;
      ghost var sorted;
      out, count, sorted := SetNewTreeIndexes(sc, tree.store.leafCount);
      NumberedNow(s, changes, sc, out, sorted);
      var ns := ComputeUpdatedTreeNodes(out);
      NewLeavesSupplied(tree.h, s, out, ns, sorted);
      CommitIsRight(tree.h, s, out, ns, sorted);
      ghost var new_ := Overlay(Padded(s, |sorted|), ns);
      SuppliedSome(s.leaves, new_, ns);
      SuppliesAll(s.leaves, new_, ns);
      var res := tree.Update(ns, count, leaves, new_);
      CommitStandsFor(tree.h, tree.b, tree.store.nodes, leaves, new_, res);
      WriteStates(out);
      IndexWritten(s, out);
      tree.store.CommitUpdate(res);
      leaves := new_;
      assert Committed(tree.h, s, Changes(changes), Abs());
      CommittedWell(tree.h, s, Changes(changes), Abs());
      return count, Some(res.root.data);
    }

    /** Writes every value, and the index of every key that had none. */
    method WriteStates(sc: seq<StateChange>)
      requires UniqueKeys(sc)
      requires forall i :: 0 <= i < |sc| ==> sc[i].prevTreeIndex == Known(index, sc[i].key)
      modifies this`values, this`index
      ensures values == old(values) + Changes(sc) && index == old(index) + Numbers(sc)
    {
      hide Changes, Numbers, UniqueKeys;
      NothingYet(sc);
      for i := 0 to |sc|
        invariant values == old(values) + Changes(sc[..i]) && index == old(index) + Numbers(sc[..i])
      {
        OneMoreChange(sc, i);
        Widen(old(values), Changes(sc[..i]), sc[i].key, sc[i].value);
        Widen(old(index), Numbers(sc[..i]), sc[i].key, sc[i].treeIndex);
        values := values[sc[i].key := sc[i].value];
        if sc[i].prevTreeIndex.None? || sc[i].prevTreeIndex.value != sc[i].treeIndex {
          index := index[sc[i].key := sc[i].treeIndex];
        }
      }
      assert sc[..|sc|] == sc;
    }

    /** Returns the last value committed under the key and never panics. */
    method VerifyState(key: Bytes) returns (value: Option<Bytes>, panics: bool)
      requires Valid()
      ensures !panics && value == if key in values then Some(values[key]) else None
    {
      hide Holds, RootOf, Overlay;
      if key !in values {
        return None, false;
      }
      if key !in index {
        return None, true;
      }
      var node := Node(Position(0, index[key]), tree.h(values[key]));
      ClaimSame(leaves, node);
      var ok := tree.Verify([node], leaves);
      if !ok {
        return None, true;
      }
      return Some(values[key]), false;
    }
  }

  lemma CommittedWell(h: Hash, before: Image, changes: Values, after: Image)
    requires Committed(h, before, changes, after)
    ensures WellIndexed(h, after)
  {
  }

  lemma ClaimSame(leaves: seq<Bytes>, node: Node)
    requires node.position.level == 0 && node.position.index < |leaves| && leaves[node.position.index] == node.data
    ensures Askable([node], leaves) && Claimed(leaves, [node]) == leaves
  {
    OverlayIs(leaves, [node]);
    assert [node][..0] == [];
  }

  lemma Widen<T>(m: map<Bytes, T>, c: map<Bytes, T>, k: Bytes, v: T)
    ensures (m + c)[k := v] == m + c[k := v]
    ensures k in m && m[k] == v && k !in c ==> m + c == m + c[k := v]
  {
  }

  lemma NothingYet(sc: seq<StateChange>)
    ensures Changes(sc[..0]) == map[] && Numbers(sc[..0]) == map[]
  {
  }

  lemma OneMoreChange(sc: seq<StateChange>, i: nat)
    requires UniqueKeys(sc) && i < |sc|
    ensures UniqueKeys(sc[..i]) && sc[i].key !in Numbers(sc[..i])
    ensures Changes(sc[..i + 1]) == Changes(sc[..i])[sc[i].key := sc[i].value]
    ensures Numbers(sc[..i + 1]) == Numbers(sc[..i])[sc[i].key := sc[i].treeIndex]
  {
    assert sc[..i + 1][..i] == sc[..i];
    ChangesAre(sc[..i]);
    assert !Listed(sc[..i], sc[i].key);
  }

  /** What is written is what was assigned. */
  lemma IndexWritten(s: Image, sc: seq<StateChange>)
    requires Numbered(s, sc)
    ensures s.index + Numbers(sc) == IndexAfter(s.index, |s.leaves|, Changes(sc).Keys)
  {
    hide Rank, NewKeys, Changes, Numbers;
    ChangesAre(sc);
    var after := IndexAfter(s.index, |s.leaves|, Changes(sc).Keys);
    forall k | k in after ensures (s.index + Numbers(sc))[k] == after[k] {
      if k in Numbers(sc) {
        assert Listed(sc, k);
        var i :| 0 <= i < |sc| && sc[i].key == k;
      }
    }
  }

  lemma SuppliedSome(old_: seq<Bytes>, new_: seq<Bytes>, ns: seq<Node>)
    requires Supplies(old_, new_, ns)
    ensures new_ != []
  {
  }

  lemma SameChanges(sc: seq<StateChange>, out: seq<StateChange>)
    requires UniqueKeys(sc) && |out| == |sc|
    requires forall i :: 0 <= i < |sc| ==> out[i].key == sc[i].key && out[i].value == sc[i].value
    ensures UniqueKeys(out) && Changes(out) == Changes(sc)
  {
    hide Changes, Numbers;
    ChangesAre(sc);
    ChangesAre(out);
    forall k ensures Listed(sc, k) <==> Listed(out, k) {
      if Listed(sc, k) {
        var i :| 0 <= i < |sc| && sc[i].key == k;
        assert out[i].key == k;
      }
      if Listed(out, k) {
        var i :| 0 <= i < |out| && out[i].key == k;
        assert sc[i].key == k;
      }
    }
    forall k | k in Changes(sc) ensures Changes(out)[k] == Changes(sc)[k] {
      assert Listed(sc, k);
      var i :| 0 <= i < |sc| && sc[i].key == k;
      assert out[i].key == k;
    }
  }

  lemma NumberedNow(s: Image, changes: seq<StateChange>, sc: seq<StateChange>, out: seq<StateChange>,
                    sorted: seq<Bytes>)
    requires UniqueKeys(changes) && UniqueKeys(sc) && Changes(sc) == Changes(changes)
    requires forall i :: 0 <= i < |sc| ==> sc[i].prevTreeIndex == Known(s.index, sc[i].key)
    requires |out| == |sc| && forall i :: 0 <= i < |sc| ==> Assigned(out[i], sc[i], |s.leaves|, Fresh(sc))
    requires StrictlySorted(sorted) && |sorted| == |Fresh(sc)| && forall k :: k in Fresh(sc) <==> k in sorted
    ensures UniqueKeys(out) && Changes(out) == Changes(changes) && Numbered(s, out)
    ensures Ordered(NewKeys(s.index, Changes(out).Keys), sorted)
  {
    hide Rank, Less, StrictlySorted, Changes, Fresh, NewKeys, IndexAfter;
    SameChanges(sc, out);
    FreshIsNew(s.index, sc);
    forall i | 0 <= i < |out| ensures IsNumbered(s, Changes(out).Keys, out[i]) {
      ChangeAt(out, i);
      NumberedOne(s, Changes(out).Keys, sc[i], out[i]);
    }
  }

  lemma NumberedOne(s: Image, keys: set<Bytes>, sc: StateChange, out: StateChange)
    requires Assigned(out, sc, |s.leaves|, NewKeys(s.index, keys)) && out.key in keys
    requires sc.prevTreeIndex == Known(s.index, sc.key)
    ensures IsNumbered(s, keys, out)
  {
    hide Rank;
  }

  lemma FreshIsNew(index: Index, sc: seq<StateChange>)
    requires UniqueKeys(sc)
    requires forall i :: 0 <= i < |sc| ==> sc[i].prevTreeIndex == Known(index, sc[i].key)
    ensures Fresh(sc) == NewKeys(index, Changes(sc).Keys)
  {
    hide Changes, Numbers;
    ChangesAre(sc);
    forall k ensures k in Fresh(sc) <==> k in NewKeys(index, Changes(sc).Keys) {
      if k in NewKeys(index, Changes(sc).Keys) {
        assert Listed(sc, k);
        var i :| 0 <= i < |sc| && sc[i].key == k;
      }
    }
  }
}
