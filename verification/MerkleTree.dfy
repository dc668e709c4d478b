// The incremental tree: dirty nodes are pushed up level by level over what the store already has.
module MerkleTree {
  import opened Common
  import opened ByteStrings
  import opened MerkleSpec

  datatype Position = Position(level: nat, index: nat)
  datatype Node = Node(position: Position, data: Bytes)
  type Nodes = map<Position, Bytes>

  datatype UpdateResult = UpdateResult(leafCount: nat, height: nat, leaves: seq<Node>, branches: seq<Node>, root: Node)

  // ------------------------------------------------ the store and what it stands for

  /** Every node of the tree over the leaves is in the store. */
  ghost predicate Holds(h: Hash, b: nat, nodes: Nodes, leaves: seq<Bytes>)
    requires b >= 2
  {
    forall l: nat, i: nat :: l < Height(b, |leaves|) && i < |Row(h, b, leaves, l)| ==>
      Position(l, i) in nodes && nodes[Position(l, i)] == Row(h, b, leaves, l)[i]
  }

  class MapStore {
    var leafCount: nat
    var height: nat
    var nodes: Nodes

    ghost predicate StandsFor(h: Hash, b: nat, leaves: seq<Bytes>)
      requires b >= 2
      reads this
    {
      && leafCount == |leaves| && Holds(h, b, nodes, leaves)
      && height == if leaves == [] then 0 else Height(b, |leaves|)
    }

    constructor (h: Hash, b: nat)
      requires b >= 2
      ensures StandsFor(h, b, [])
    {
      leafCount, height, nodes := 0, 0, map[];
    }

    method CommitUpdate(res: UpdateResult)
      modifies this
      ensures leafCount == res.leafCount && height == res.height
      ensures nodes == PutAll(PutAll(old(nodes), res.leaves), res.branches)
    {
      leafCount, height := res.leafCount, res.height;
      for i := 0 to |res.leaves|
        invariant PutAll(nodes, res.leaves[i..]) == PutAll(old(nodes), res.leaves)
        modifies this`nodes
      {
        nodes := nodes[res.leaves[i].position := res.leaves[i].data];
      }
      ghost var mid := nodes;
      for i := 0 to |res.branches|
        invariant PutAll(nodes, res.branches[i..]) == PutAll(mid, res.branches)
        modifies this`nodes
      {
        nodes := nodes[res.branches[i].position := res.branches[i].data];
      }
    }
  }

  function PutAll(m: Nodes, ns: seq<Node>): Nodes
    decreases |ns|
  {
    if ns == [] then m else PutAll(m[ns[0].position := ns[0].data], ns[1..])
  }

  /** When the nodes written agree with a target, each position has its target value or its old one. */
  lemma {:induction false} PutAllAt(m: Nodes, ns: seq<Node>, p: Position, want: Bytes)
    requires forall i :: 0 <= i < |ns| && ns[i].position == p ==> ns[i].data == want
    requires (exists i :: 0 <= i < |ns| && ns[i].position == p) || (p in m && m[p] == want)
    ensures p in PutAll(m, ns) && PutAll(m, ns)[p] == want
    decreases |ns|
  {
    if ns != [] {
      var m' := m[ns[0].position := ns[0].data];
      if ns[0].position != p && exists i :: 0 <= i < |ns| && ns[i].position == p {
        var i :| 0 <= i < |ns| && ns[i].position == p;
        assert ns[1..][i - 1].position == p;
      }
      PutAllAt(m', ns[1..], p, want);
    }
  }

  // ------------------------------------------------ one group

  function Somes(s: seq<Option<Bytes>>): seq<Bytes> {
    if s == [] then [] else Somes(s[..|s| - 1]) + if s[|s| - 1].Some? then [s[|s| - 1].value] else []
  }

  lemma SomesAppend(s: seq<Option<Bytes>>, i: nat)
    requires i < |s|
    ensures Somes(s[..i + 1]) == if s[i].Some? then Somes(s[..i]) + [s[i].value] else Somes(s[..i])
  {
    assert s[..i + 1][..i] == s[..i];
  }

  function Entry(row: seq<Bytes>, i: nat): Option<Bytes> { if i < |row| then Some(row[i]) else None }

  lemma {:induction false} SomesOfGroup(nodes: seq<Option<Bytes>>, row: seq<Bytes>, lo: nat)
    requires forall i :: 0 <= i < |nodes| ==> nodes[i] == Entry(row, lo + i)
    ensures Somes(nodes) == if lo >= |row| then [] else row[lo..if lo + |nodes| <= |row| then lo + |nodes| else |row|]
  {
    if nodes != [] { SomesOfGroup(nodes[..|nodes| - 1], row, lo); }
  }

  lemma {:induction false} ConcatAppend(a: seq<Bytes>, x: Bytes)
    ensures Concat(a + [x]) == Concat(a) + x
  {
    if a == [] {
      assert [] + [x] == [x] && Concat([x]) == x + Concat([]);
    } else {
      ConcatAppend(a[1..], x);
      assert (a + [x])[1..] == a[1..] + [x];
    }
  }

  class Group {
    const b: nat
    const parent: Position
    var nodes: seq<Option<Bytes>>

    /** What is set so far belongs to the row. */
    ghost predicate Partial(row: seq<Bytes>)
      reads this
    {
      && |nodes| == b && b >= 2
      && forall i :: 0 <= i < b && nodes[i].Some? ==> nodes[i] == Entry(row, parent.index * b + i)
    }

    ghost predicate Full(row: seq<Bytes>)
      reads this
    {
      |nodes| == b && b >= 2 && forall i :: 0 <= i < b ==> nodes[i] == Entry(row, parent.index * b + i)
    }

    constructor (b: nat, parent: Position)
      requires b >= 2
      ensures this.b == b && this.parent == parent && nodes == seq(b, i => None)
    {
      this.b, this.parent, nodes := b, parent, seq(b, i => None);
    }

    method SetNode(n: Node)
      requires |nodes| == b >= 2 && GroupOf(b, n.position.index) == parent.index
      modifies this`nodes
      ensures |nodes| == b
      ensures forall i :: 0 <= i < b ==>
        nodes[i] == if n.position.index == parent.index * b + i then Some(n.data) else old(nodes[i])
    {
      var i := n.position.index % b;
      GroupRange(b, n.position.index, parent.index);
      DivUnique(n.position.index, b, parent.index, n.position.index - parent.index * b);
      if i < |nodes| {
        nodes := nodes[i := Some(n.data)];
      }
    }

    /** Completes the group from the store, up to the end of the row. */
    method Load(store: Nodes, rowSize: nat, ghost row: seq<Bytes>)
      requires Partial(row) && rowSize == |row| && parent.level >= 1
      requires forall i :: 0 <= i < b && nodes[i].None? && parent.index * b + i < |row| ==>
        InStore(store, Position(parent.level - 1, parent.index * b + i), row[parent.index * b + i])
      modifies this`nodes
      ensures Full(row)
    {
      var offset := parent.index * b;
      for i := 0 to b
        invariant Partial(row)
        invariant forall j :: 0 <= j < i ==> nodes[j] == Entry(row, offset + j)
        invariant forall j :: i <= j < b ==> nodes[j] == old(nodes[j])
      {
        if nodes[i].None? {
          var index := offset + i;
          if rowSize <= index {
            break;
          }
          var p := Position(parent.level - 1, index);
          assert InStore(store, p, row[index]);
          if p in store {
            nodes := nodes[i := Some(store[p])];
          }
        }
      }
    }

    /** Everything set, in order, written one after another. */
    method Written() returns (written: Bytes)
      ensures written == Concat(Somes(nodes))
    {
      hide Concat, Somes;
      written := [];
      NothingWritten();
      assert nodes[..0] == [];
      for i := 0 to |nodes|
        invariant written == Concat(Somes(nodes[..i]))
      {
        SomesAppend(nodes, i);
        if nodes[i].Some? {
          ConcatAppend(Somes(nodes[..i]), nodes[i].value);
          written := written + nodes[i].value;
        }
      }
      assert nodes[..|nodes|] == nodes;
    }

    method MakeParent(h: Hash, ghost row: seq<Bytes>) returns (p: Node)
      requires Full(row) && parent.index * b < |row|
      ensures p == Node(parent, h(Preimage(row, b, parent.index)))
    {
      hide Concat, Somes;
      var written := Written();
      SomesOfGroup(nodes, row, parent.index * b);
      p := Node(parent, h(written));
    }
  }

  lemma NothingWritten()
    ensures Concat(Somes([])) == []
  {
  }

  predicate InStore(store: Nodes, p: Position, data: Bytes) { p in store && store[p] == data }

  // ------------------------------------------------ one level

  /** The nodes are nodes of this row. */
  ghost predicate OfRow(ns: seq<Node>, level: nat, row: seq<Bytes>) {
    forall k :: 0 <= k < |ns| ==>
      ns[k].position.level == level && ns[k].position.index < |row| && ns[k].data == row[ns[k].position.index]
  }

  ghost function Indexes(ns: seq<Node>): set<nat> {
    set k | 0 <= k < |ns| :: ns[k].position.index
  }

  ghost function Groups(b: nat, indexes: set<nat>): set<nat>
    requires b >= 2
  {
    set i | i in indexes :: GroupOf(b, i)
  }

  /** What the list says of an index in the end: a later node overrides an earlier one. */
  ghost function LastAt(ns: seq<Node>, i: nat): Option<Bytes> {
    if ns == [] then None
    else if ns[|ns| - 1].position.index == i then Some(ns[|ns| - 1].data)
    else LastAt(ns[..|ns| - 1], i)
  }

  /** What the nodes say in the end is in the row. */
  ghost predicate LastOfRow(ns: seq<Node>, row: seq<Bytes>) {
    forall i: nat :: i in Indexes(ns) ==> i < |row| && LastAt(ns, i) == Some(row[i])
  }

  lemma {:induction false} LastIsSome(ns: seq<Node>, i: nat)
    ensures i in Indexes(ns) <==> LastAt(ns, i).Some?
  {
    if ns != [] {
      var k := |ns| - 1;
      LastIsSome(ns[..k], i);
      AppendIndex(ns[..k], ns[k]);
      assert ns[..k] + [ns[k]] == ns;
    }
  }

  lemma {:induction false} RowIsLast(ns: seq<Node>, level: nat, row: seq<Bytes>)
    requires OfRow(ns, level, row)
    ensures LastOfRow(ns, row)
  {
    if ns != [] {
      var k := |ns| - 1;
      RowIsLast(ns[..k], level, row);
      AppendIndex(ns[..k], ns[k]);
      assert ns[..k] + [ns[k]] == ns;
    }
  }

  /** The nodes of one group, in their order. */
  function OfGroup(b: nat, ns: seq<Node>, g: nat): seq<Node>
    requires b >= 2
  {
    if ns == [] then []
    else
      var n := ns[|ns| - 1];
      OfGroup(b, ns[..|ns| - 1], g) + if GroupOf(b, n.position.index) == g then [n] else []
  }

  /** In its own group an index is what it is in the whole list. */
  lemma {:induction false} LastInGroup(b: nat, ns: seq<Node>, g: nat, i: nat)
    requires b >= 2
    ensures LastAt(OfGroup(b, ns, g), i) == if GroupOf(b, i) == g then LastAt(ns, i) else None
    ensures forall k :: 0 <= k < |OfGroup(b, ns, g)| ==> GroupOf(b, OfGroup(b, ns, g)[k].position.index) == g
  {
    hide GroupOf;
    if ns != [] {
      var rest, n := OfGroup(b, ns[..|ns| - 1], g), ns[|ns| - 1];
      LastInGroup(b, ns[..|ns| - 1], g, i);
      if GroupOf(b, n.position.index) == g {
        assert (rest + [n])[..|rest|] == rest;
      } else {
        assert rest + [] == rest;
      }
    }
  }

  lemma NoGroups(b: nat, ns: seq<Node>)
    requires b >= 2
    ensures forall g: nat :: OfGroup(b, ns[..0], g) == []
  {
  }

  lemma NextGroup(b: nat, ns: seq<Node>, k: nat)
    requires b >= 2 && k < |ns|
    ensures var own := GroupOf(b, ns[k].position.index);
      && OfGroup(b, ns[..k + 1], own) == OfGroup(b, ns[..k], own) + [ns[k]]
      && forall g: nat :: g != own ==> OfGroup(b, ns[..k + 1], g) == OfGroup(b, ns[..k], g)
  {
    hide GroupOf;
    assert ns[..k + 1][..k] == ns[..k];
  }

  /** Sorts the nodes by the group they fall into, keeping their order. */
  method GroupNodesByParent(b: nat, ns: seq<Node>) returns (m: map<nat, seq<Node>>)
    requires b >= 2
    ensures m.Keys == Groups(b, Indexes(ns))
    ensures forall g :: g in m ==> m[g] == OfGroup(b, ns, g)
  {
    hide GroupOf, OfGroup;
    m := map[];
    NoGroups(b, ns);
    for k := 0 to |ns|
      invariant forall g :: g in m ==> exists j :: 0 <= j < k && GroupOf(b, ns[j].position.index) == g
      invariant forall j :: 0 <= j < k ==> GroupOf(b, ns[j].position.index) in m
      invariant forall g: nat :: OfGroup(b, ns[..k], g) == if g in m then m[g] else []
    {
      var g := GroupOf(b, ns[k].position.index);
      NextGroup(b, ns, k);
      m := m[g := (if g in m then m[g] else []) + [ns[k]]];
    }
    assert ns[..|ns|] == ns;
    GroupsAre(b, ns, m.Keys);
  }

  lemma GroupsAre(b: nat, ns: seq<Node>, keys: set<nat>)
    requires b >= 2
    requires forall g :: g in keys ==> exists j :: 0 <= j < |ns| && GroupOf(b, ns[j].position.index) == g
    requires forall j :: 0 <= j < |ns| ==> GroupOf(b, ns[j].position.index) in keys
    ensures keys == Groups(b, Indexes(ns))
  {
    hide GroupOf;
    forall g | g in keys ensures g in Groups(b, Indexes(ns)) {
      var j :| 0 <= j < |ns| && GroupOf(b, ns[j].position.index) == g;
      assert ns[j].position.index in Indexes(ns);
    }
  }

  /** The parent over one group: its dirty nodes set, the rest loaded, the whole hashed. */
  method OneParent(h: Hash, b: nat, store: Nodes, level: nat, g: nat, gnodes: seq<Node>, rowSize: nat,
                   ghost row: seq<Bytes>)
    returns (p: Node)
    requires b >= 2 && rowSize == |row| && g * b < |row|
    requires forall k :: 0 <= k < |gnodes| ==> GroupOf(b, gnodes[k].position.index) == g
    requires forall i: nat :: i < |row| && GroupOf(b, i) == g ==> Ready(gnodes, store, level, row, i)
    requires forall i: nat :: i >= |row| ==> LastAt(gnodes, i) == None
    ensures p == Node(Position(level + 1, g), h(Preimage(row, b, g)))
  {
    hide GroupOf, Preimage, InStore, LastAt;
    var group := new Group(b, Position(level + 1, g));
    assert gnodes[..0] == [];
    NothingSaid();
    for k := 0 to |gnodes|
      invariant |group.nodes| == b
      invariant forall i :: 0 <= i < b ==> group.nodes[i] == LastAt(gnodes[..k], g * b + i)
    {
      group.SetNode(gnodes[k]);
      forall i | 0 <= i < b ensures group.nodes[i] == LastAt(gnodes[..k + 1], g * b + i) {
        SaidNext(gnodes, k, g * b + i);
      }
    }
    assert gnodes[..|gnodes|] == gnodes;
    forall i | 0 <= i < b
      ensures group.nodes[i].Some? ==> group.nodes[i] == Entry(row, g * b + i)
      ensures group.nodes[i].None? && g * b + i < |row| ==> InStore(store, Position(level, g * b + i), row[g * b + i])
    {
      GroupRange(b, g * b + i, g);
      assert g * b + i < |row| ==> Ready(gnodes, store, level, row, g * b + i);
    }
    group.Load(store, rowSize, row);
    p := group.MakeParent(h, row);
  }

  lemma NothingSaid()
    ensures forall i: nat :: LastAt([], i) == None
  {
  }

  lemma SaidNext(ns: seq<Node>, k: nat, i: nat)
    requires k < |ns|
    ensures LastAt(ns[..k + 1], i) == if ns[k].position.index == i then Some(ns[k].data) else LastAt(ns[..k], i)
  {
    assert ns[..k + 1][..k] == ns[..k];
  }

  /** What the nodes say of an index is right, and if they say nothing the store has it. */
  ghost predicate Ready(ns: seq<Node>, store: Nodes, level: nat, row: seq<Bytes>, i: nat)
    requires i < |row|
  {
    if LastAt(ns, i).Some? then LastAt(ns, i) == Some(row[i]) else InStore(store, Position(level, i), row[i])
  }

  /** All parents of the dirty groups, in whatever order the workers finish. */
  method UpdateOneLevel(h: Hash, b: nat, store: Nodes, level: nat, ns: seq<Node>, rowSize: nat, ghost row: seq<Bytes>)
    returns (parents: seq<Node>)
    requires b >= 2 && rowSize == |row| && LastOfRow(ns, row)
    requires forall i: nat :: i < |row| && i !in Indexes(ns) ==> InStore(store, Position(level, i), row[i])
    ensures OfRow(parents, level + 1, NextRow(h, b, row))
    ensures Indexes(parents) == Groups(b, Indexes(ns))
  {
    hide GroupOf, InStore, Preimage, GroupCount, LastOfRow, OfGroup, Ready, LastAt;
    var gnodes := GroupNodesByParent(b, ns);
    var todo := gnodes.Keys;
    parents := [];
    while todo != {}
      invariant todo <= gnodes.Keys && Indexes(parents) == gnodes.Keys - todo
      invariant OfRow(parents, level + 1, NextRow(h, b, row))
      decreases todo
    {
      var g :| g in todo;
      GroupReady(b, store, level, ns, g, row);
      var p := OneParent(h, b, store, level, g, gnodes[g], rowSize, row);
      AppendIndex(parents, p);
      parents := parents + [p];
      todo := todo - {g};
    }
  }

  lemma AppendIndex(ns: seq<Node>, p: Node)
    ensures Indexes(ns + [p]) == Indexes(ns) + {p.position.index}
  {
    var all := ns + [p];
    forall x | x in Indexes(ns) + {p.position.index} ensures x in Indexes(all) {
      if x in Indexes(ns) {
        var k :| 0 <= k < |ns| && ns[k].position.index == x;
        assert all[k].position.index == x;
      } else {
        assert all[|ns|].position.index == x;
      }
    }
  }

  lemma GroupReady(b: nat, store: Nodes, level: nat, ns: seq<Node>, g: nat, row: seq<Bytes>)
    requires b >= 2 && LastOfRow(ns, row) && g in Groups(b, Indexes(ns))
    requires forall i: nat :: i < |row| && i !in Indexes(ns) ==> InStore(store, Position(level, i), row[i])
    ensures g * b < |row| && g < GroupCount(b, |row|)
    ensures var gnodes := OfGroup(b, ns, g);
      && (forall k :: 0 <= k < |gnodes| ==> GroupOf(b, gnodes[k].position.index) == g)
      && (forall i: nat :: i < |row| && GroupOf(b, i) == g ==> Ready(gnodes, store, level, row, i))
      && (forall i: nat :: i >= |row| ==> LastAt(gnodes, i) == None)
  {
    hide GroupOf, InStore, GroupCount, LastAt, OfGroup, Indexes;
    var i :| i in Indexes(ns) && GroupOf(b, i) == g;
    GroupRange(b, i, g);
    GroupOfInside(b, |row|, i);
    forall i: nat
      ensures i < |row| && GroupOf(b, i) == g ==> Ready(OfGroup(b, ns, g), store, level, row, i)
      ensures i >= |row| ==> LastAt(OfGroup(b, ns, g), i) == None
    {
      LastInGroup(b, ns, g, i);
      LastIsSome(ns, i);
    }
    LastInGroup(b, ns, g, 0);
  }

  // ------------------------------------------------ all levels

  /** A node the old tree already has with the value the new tree wants. */
  ghost predicate CleanAt(h: Hash, b: nat, old_: seq<Bytes>, new_: seq<Bytes>, l: nat, i: nat)
    requires b >= 2
  {
    && old_ != [] && l < Height(b, |old_|)
    && i < |Row(h, b, old_, l)| && i < |Row(h, b, new_, l)| && Row(h, b, old_, l)[i] == Row(h, b, new_, l)[i]
  }

  ghost predicate CleanOutside(h: Hash, b: nat, old_: seq<Bytes>, new_: seq<Bytes>, l: nat, dirty: set<nat>)
    requires b >= 2
  {
    forall i: nat :: i < |Row(h, b, new_, l)| && i !in dirty ==> CleanAt(h, b, old_, new_, l, i)
  }

  /** The old tree does not end below a clean group. */
  lemma CleanGroupBelowTop(h: Hash, b: nat, old_: seq<Bytes>, new_: seq<Bytes>, l: nat, dirty: set<nat>, g: nat)
    requires b >= 2 && |old_| <= |new_| && l + 1 < Height(b, |new_|)
    requires CleanOutside(h, b, old_, new_, l, dirty)
    requires g * b < |Row(h, b, new_, l)| && g !in Groups(b, dirty)
    ensures old_ != [] && l + 1 < Height(b, |old_|)
  {
    hide Row, GroupCount, RowSize, Height;
    var first := g * b;
    GroupRange(b, first, g);
    assert CleanAt(h, b, old_, new_, l, first);
    RowHasSize(h, b, old_, l);
    RowHasSize(h, b, new_, l);
    HeightIsFirst(b, |old_|, l);
    HeightIsFirst(b, |new_|, l);
    if l + 1 >= Height(b, |old_|) {
      assert g == 0;
      SecondIsDirty(h, b, old_, new_, l, dirty);
      GroupRange(b, 1, 0);
    }
  }

  lemma SecondIsDirty(h: Hash, b: nat, old_: seq<Bytes>, new_: seq<Bytes>, l: nat, dirty: set<nat>)
    requires b >= 2 && CleanOutside(h, b, old_, new_, l, dirty)
    requires |Row(h, b, new_, l)| > 1 && |Row(h, b, old_, l)| <= 1
    ensures 1 in dirty
  {
    assert !CleanAt(h, b, old_, new_, l, 1);
  }

  /** A group with no dirty node is the same group in both trees. */
  lemma CleanSlice(h: Hash, b: nat, old_: seq<Bytes>, new_: seq<Bytes>, l: nat, dirty: set<nat>, g: nat)
    requires b >= 2 && |old_| <= |new_| && CleanOutside(h, b, old_, new_, l, dirty)
    requires g * b < |Row(h, b, new_, l)| && g !in Groups(b, dirty)
    ensures g * b < |Row(h, b, old_, l)| && Slice(Row(h, b, old_, l), b, g) == Slice(Row(h, b, new_, l), b, g)
  {
    hide Row, RowSize, Height, GroupOf, Slice, CleanOutside, Groups;
    var ro, rn := Row(h, b, old_, l), Row(h, b, new_, l);
    RowHasSize(h, b, old_, l);
    RowHasSize(h, b, new_, l);
    SizesMonotone(b, |old_|, |new_|, l);
    forall i: nat | g * b <= i < g * b + b && i < |rn| ensures SameAt(ro, rn, i) {
      CleanNode(h, b, old_, new_, l, dirty, g, i);
    }
    SameSlice(ro, rn, b, g);
  }

  predicate SameAt(ro: seq<Bytes>, rn: seq<Bytes>, i: nat) {
    i < |ro| && i < |rn| && ro[i] == rn[i]
  }

  lemma CleanNode(h: Hash, b: nat, old_: seq<Bytes>, new_: seq<Bytes>, l: nat, dirty: set<nat>, g: nat, i: nat)
    requires b >= 2 && CleanOutside(h, b, old_, new_, l, dirty)
    requires g * b <= i < g * b + b && i < |Row(h, b, new_, l)| && g !in Groups(b, dirty)
    ensures SameAt(Row(h, b, old_, l), Row(h, b, new_, l), i)
  {
    hide Row, Height, GroupOf;
    GroupRange(b, i, g);
    assert CleanAt(h, b, old_, new_, l, i);
  }

  lemma SameSlice(ro: seq<Bytes>, rn: seq<Bytes>, b: nat, g: nat)
    requires |ro| <= |rn| && b >= 2 && g * b < |rn|
    requires forall i: nat :: g * b <= i < g * b + b && i < |rn| ==> SameAt(ro, rn, i)
    ensures g * b < |ro| && Slice(ro, b, g) == Slice(rn, b, g)
  {
    var lo := g * b;
    var hi := if lo + b <= |rn| then lo + b else |rn|;
    SameRange(ro, rn, lo, hi);
    SliceIs(rn, b, g, lo, hi);
    SliceIs(ro, b, g, lo, hi);
  }

  lemma SameRange(ro: seq<Bytes>, rn: seq<Bytes>, lo: nat, hi: nat)
    requires lo < hi <= |rn| && forall i: nat :: lo <= i < hi ==> SameAt(ro, rn, i)
    ensures hi <= |ro| && ro[lo..hi] == rn[lo..hi]
  {
    assert SameAt(ro, rn, hi - 1);
    forall k | 0 <= k < hi - lo ensures ro[lo..hi][k] == rn[lo..hi][k] {
      assert SameAt(ro, rn, lo + k);
    }
  }

  lemma SliceIs(row: seq<Bytes>, b: nat, g: nat, lo: nat, hi: nat)
    requires lo == g * b && lo < hi <= |row| && (hi == lo + b || (hi == |row| && hi < lo + b))
    ensures Slice(row, b, g) == row[lo..hi]
  {
  }

  /** What is clean below a level is clean above it, growth in height included. */
  lemma CleanAbove(h: Hash, b: nat, old_: seq<Bytes>, new_: seq<Bytes>, l: nat, dirty: set<nat>)
    requires b >= 2 && |old_| <= |new_| && l + 1 < Height(b, |new_|)
    requires CleanOutside(h, b, old_, new_, l, dirty)
    ensures CleanOutside(h, b, old_, new_, l + 1, Groups(b, dirty))
  {
    hide GroupCount, RowSize, Height, Slice, CleanOutside, Groups;
    var ro, rn := Row(h, b, old_, l), Row(h, b, new_, l);
    forall g: nat | g < |Row(h, b, new_, l + 1)| && g !in Groups(b, dirty) ensures CleanAt(h, b, old_, new_, l + 1, g) {
      GroupExists(b, |rn|, g);
      CleanGroupBelowTop(h, b, old_, new_, l, dirty, g);
      CleanSlice(h, b, old_, new_, l, dirty, g);
      GroupExists(b, |ro|, g);
      assert NextRow(h, b, ro)[g] == h(Preimage(ro, b, g)) == h(Preimage(rn, b, g)) == NextRow(h, b, rn)[g];
    }
    CleanIs(h, b, old_, new_, l + 1, Groups(b, dirty));
  }

  lemma CleanIs(h: Hash, b: nat, old_: seq<Bytes>, new_: seq<Bytes>, l: nat, dirty: set<nat>)
    requires b >= 2
    requires forall i: nat :: i < |Row(h, b, new_, l)| && i !in dirty ==> CleanAt(h, b, old_, new_, l, i)
    ensures CleanOutside(h, b, old_, new_, l, dirty)
  {
  }

  /** What is clean is in the store. */
  lemma CleanIsStored(h: Hash, b: nat, store: Nodes, old_: seq<Bytes>, new_: seq<Bytes>, l: nat, dirty: set<nat>)
    requires b >= 2 && Holds(h, b, store, old_) && CleanOutside(h, b, old_, new_, l, dirty)
    ensures forall i: nat :: i < |Row(h, b, new_, l)| && i !in dirty ==>
      InStore(store, Position(l, i), Row(h, b, new_, l)[i])
  {
    hide Row, Height;
  }

  /** The nodes of an update: right where they are, and nothing else changed up to the level. */
  ghost predicate Covers(h: Hash, b: nat, old_: seq<Bytes>, new_: seq<Bytes>, ns: seq<Node>, from: nat, upto: nat)
    requires b >= 2
  {
    && (forall k :: 0 <= k < |ns| ==> RightNode(h, b, new_, ns[k]) && from <= ns[k].position.level < upto)
    && (forall l: nat, i: nat :: from <= l < upto && i < |Row(h, b, new_, l)| ==>
         Has(ns, Position(l, i)) || CleanAt(h, b, old_, new_, l, i))
  }

  ghost predicate RightNode(h: Hash, b: nat, new_: seq<Bytes>, n: Node)
    requires b >= 2
  {
    var row := Row(h, b, new_, n.position.level);
    n.position.index < |row| && n.data == row[n.position.index]
  }

  ghost predicate Has(ns: seq<Node>, p: Position) { exists k :: 0 <= k < |ns| && ns[k].position == p }

  lemma CoversMore(h: Hash, b: nat, old_: seq<Bytes>, new_: seq<Bytes>, ns: seq<Node>, from: nat, l: nat,
                   more: seq<Node>)
    requires b >= 2 && from <= l && Covers(h, b, old_, new_, ns, from, l)
    requires OfRow(more, l, Row(h, b, new_, l)) && CleanOutside(h, b, old_, new_, l, Indexes(more))
    ensures Covers(h, b, old_, new_, ns + more, from, l + 1)
  {
    hide Row, CleanAt;
    var all := ns + more;
    forall m: nat, i: nat | from <= m < l + 1 && i < |Row(h, b, new_, m)|
      ensures Has(all, Position(m, i)) || CleanAt(h, b, old_, new_, m, i)
    {
      if m < l {
        if Has(ns, Position(m, i)) {
          var k :| 0 <= k < |ns| && ns[k].position == Position(m, i);
          assert all[k].position == Position(m, i);
        }
      } else if i in Indexes(more) {
        var k :| 0 <= k < |more| && more[k].position.index == i;
        assert all[|ns| + k].position == Position(m, i);
      }
    }
  }

  /** Leaves that are supplied or as before. */
  ghost predicate Supplies(old_: seq<Bytes>, new_: seq<Bytes>, leaves: seq<Node>) {
    && |old_| <= |new_| && leaves != [] && new_ != [] && OfRow(leaves, 0, new_)
    && forall i: nat :: i < |new_| && i !in Indexes(leaves) ==> i < |old_| && old_[i] == new_[i]
  }

  /** The same of leaves among which a later one overrides an earlier one. */
  ghost predicate SuppliesLast(old_: seq<Bytes>, new_: seq<Bytes>, leaves: seq<Node>) {
    && |old_| <= |new_| && leaves != [] && new_ != [] && LastOfRow(leaves, new_)
    && forall i: nat :: i < |new_| && i !in Indexes(leaves) ==> i < |old_| && old_[i] == new_[i]
  }

  lemma SuppliesAll(old_: seq<Bytes>, new_: seq<Bytes>, leaves: seq<Node>)
    requires Supplies(old_, new_, leaves)
    ensures SuppliesLast(old_, new_, leaves) && OfRow(leaves, 0, new_)
  {
    RowIsLast(leaves, 0, new_);
  }

  method HeightOf(b: nat, n: nat) returns (r: nat)
    requires b >= 2
    ensures r == Height(b, n)
  {
    hide GroupCount;
    r := 1;
    var count := n;
    while count > 1
      invariant r - 1 + Height(b, count) == Height(b, n)
      decreases count
    {
      GroupCountShrinks(b, count);
      r := r + 1;
      count := GroupCount(b, count);
    }
  }

  class Tree {
    const store: MapStore
    const h: Hash
    const b: nat

    constructor (store: MapStore, h: Hash, branchFactor: nat)
      ensures this.store == store && this.h == h && b == if branchFactor < 2 then 2 else branchFactor
    {
      this.store, this.h, b := store, h, if branchFactor < 2 then 2 else branchFactor;
    }

    method Root() returns (r: Option<Bytes>)
      ensures forall leaves :: b >= 2 && store.StandsFor(h, b, leaves) && leaves != [] ==>
        r == Some(RootOf(h, b, leaves))
      ensures forall leaves :: b >= 2 && store.StandsFor(h, b, leaves) && leaves == [] ==> r == None
    {
      if store.height == 0 {
        return None;
      }
      var p := Position(store.height - 1, 0);
      r := if p in store.nodes then Some(store.nodes[p]) else None;
      forall leaves | b >= 2 && store.StandsFor(h, b, leaves) && leaves != [] ensures r == Some(RootOf(h, b, leaves)) {
        TopIsSingle(h, b, leaves);
        assert 0 < |Row(h, b, leaves, store.height - 1)|;
      }
    }

    /**
     * Pushes the supplied leaves up to a new root. The root is the one computed from the whole new leaf
     * sequence, and writing the result gives a store with the whole new tree. Of repeated leaves the last
     * one counts, but the first is the root of a tree of one leaf.
     */
    method Update(leaves: seq<Node>, newLeafCount: nat, ghost old_: seq<Bytes>, ghost new_: seq<Bytes>)
      returns (res: UpdateResult)
      requires b >= 2 && store.StandsFor(h, b, old_) && SuppliesLast(old_, new_, leaves) && newLeafCount == |new_|
      ensures res.leafCount == |new_| && res.height == Height(b, |new_|) && res.leaves == leaves
      ensures |new_| > 1 || OfRow(leaves, 0, new_) ==> res.root.data == RootOf(h, b, new_)
      ensures |new_| == 1 ==> res.root == leaves[0]
      ensures Covers(h, b, old_, new_, res.branches, 1, res.height)
    {
      hide Row, Height, Covers, GroupCount, RootOf, SuppliesLast, CleanOutside, InStore, Holds, OfRow, Indexes, Groups,
        LastOfRow;
      var height := HeightOf(b, newLeafCount);
      var branches: seq<Node> := [];
      var nodes, rowSize := leaves, newLeafCount;
      StartClean(h, b, old_, new_, leaves);
      for i := 0 to height - 1
        invariant LastOfRow(nodes, Row(h, b, new_, i)) && rowSize == |Row(h, b, new_, i)| && nodes != []
        invariant i > 0 ==> OfRow(nodes, i, Row(h, b, new_, i))
        invariant CleanOutside(h, b, old_, new_, i, Indexes(nodes))
        invariant Covers(h, b, old_, new_, branches, 1, i + 1)
        invariant if i == 0 then nodes == leaves else branches != [] && branches[|branches| - 1] == nodes[|nodes| - 1]
      {
        CleanIsStored(h, b, store.nodes, old_, new_, i, Indexes(nodes));
        CleanAbove(h, b, old_, new_, i, Indexes(nodes));
        RowUp(h, b, new_, i);
        ghost var below := nodes;
        nodes := UpdateOneLevel(h, b, store.nodes, i, nodes, rowSize, Row(h, b, new_, i));
        SomeGroup(b, below, nodes);
        RowIsLast(nodes, i + 1, Row(h, b, new_, i + 1));
        CoversMore(h, b, old_, new_, branches, 1, i + 1, nodes);
        branches := branches + nodes;
        rowSize := GroupCount(b, rowSize);
      }
      var root := if height > 1 then branches[|branches| - 1] else leaves[0];
      HeightOne(b, |new_|);
      if |new_| > 1 || OfRow(leaves, 0, new_) {
        TopNode(h, b, new_, nodes);
      }
      res := UpdateResult(newLeafCount, height, leaves, branches, root);
    }

    /** Accepts leaves exactly when the tree with the claimed ones in place has the stored root. */
    method Verify(leaves: seq<Node>, ghost stored: seq<Bytes>) returns (ok: bool)
      requires b >= 2 && store.StandsFor(h, b, stored)
      ensures ok <==> Askable(leaves, stored) && RootOf(h, b, Claimed(stored, leaves)) == RootOf(h, b, stored)
    {
      hide Row, Height, RootOf, Holds, SuppliesLast, OfRow, Overlay;
      var root := Root();
      if root.None? || leaves == [] || store.leafCount == 0 {
        return false;
      }
      for i := 0 to |leaves|
        invariant forall k :: 0 <= k < i ==> leaves[k].position.level == 0 && leaves[k].position.index < |stored|
      {
        if leaves[i].position.level != 0 {
          return false;
        }
        if store.leafCount <= leaves[i].position.index {
          return false;
        }
      }
      OverlaySupplies(stored, leaves);
      if |stored| == 1 { RootOfOne(h, b, leaves[0].data); }
      var res := Update(leaves, store.leafCount, stored, Overlay(stored, leaves));
      return root.value == res.root.data;
    }
  }

  lemma StartClean(h: Hash, b: nat, old_: seq<Bytes>, new_: seq<Bytes>, leaves: seq<Node>)
    requires b >= 2 && SuppliesLast(old_, new_, leaves)
    ensures Row(h, b, new_, 0) == new_ && LastOfRow(leaves, new_) && leaves != [] && new_ != [] && |old_| <= |new_|
    ensures CleanOutside(h, b, old_, new_, 0, Indexes(leaves))
    ensures Covers(h, b, old_, new_, [], 1, 1)
  {
    hide LastAt;
  }

  lemma HeightOne(b: nat, n: nat)
    requires b >= 2 && n > 0
    ensures Height(b, n) == 1 <==> n == 1
  {
  }

  /** A tree of one leaf is that leaf. */
  lemma RootOfOne(h: Hash, b: nat, x: Bytes)
    requires b >= 2
    ensures RootOf(h, b, [x]) == x
  {
  }

  lemma RowUp(h: Hash, b: nat, leaves: seq<Bytes>, l: nat)
    requires b >= 2
    ensures Row(h, b, leaves, l + 1) == NextRow(h, b, Row(h, b, leaves, l))
  {
  }

  lemma SomeGroup(b: nat, ns: seq<Node>, parents: seq<Node>)
    requires b >= 2 && ns != [] && Indexes(parents) == Groups(b, Indexes(ns))
    ensures parents != []
  {
    assert ns[0].position.index in Indexes(ns);
    assert GroupOf(b, ns[0].position.index) in Groups(b, Indexes(ns));
  }

  lemma TopNode(h: Hash, b: nat, new_: seq<Bytes>, nodes: seq<Node>)
    requires b >= 2 && new_ != [] && nodes != []
    requires OfRow(nodes, Height(b, |new_|) - 1, Row(h, b, new_, Height(b, |new_|) - 1))
    ensures nodes[|nodes| - 1].data == RootOf(h, b, new_) && nodes[0].data == RootOf(h, b, new_)
  {
    TopIsSingle(h, b, new_);
  }

  /** Committing an update leaves a store that stands for the new leaves. */
  lemma CommitStandsFor(h: Hash, b: nat, store: Nodes, old_: seq<Bytes>, new_: seq<Bytes>, res: UpdateResult)
    requires b >= 2 && Holds(h, b, store, old_) && Supplies(old_, new_, res.leaves)
    requires Covers(h, b, old_, new_, res.branches, 1, Height(b, |new_|))
    ensures Holds(h, b, PutAll(PutAll(store, res.leaves), res.branches), new_)
  {
    hide Row, Height, PutAll;
    var m1 := PutAll(store, res.leaves);
    var m2 := PutAll(m1, res.branches);
    forall l: nat, i: nat | l < Height(b, |new_|) && i < |Row(h, b, new_, l)|
      ensures Position(l, i) in m2 && m2[Position(l, i)] == Row(h, b, new_, l)[i]
    {
      CommitOne(h, b, store, old_, new_, res, l, i);
    }
  }

  lemma CommitOne(h: Hash, b: nat, store: Nodes, old_: seq<Bytes>, new_: seq<Bytes>, res: UpdateResult, l: nat, i: nat)
    requires b >= 2 && Holds(h, b, store, old_) && Supplies(old_, new_, res.leaves)
    requires Covers(h, b, old_, new_, res.branches, 1, Height(b, |new_|))
    requires l < Height(b, |new_|) && i < |Row(h, b, new_, l)|
    ensures var m := PutAll(PutAll(store, res.leaves), res.branches);
      Position(l, i) in m && m[Position(l, i)] == Row(h, b, new_, l)[i]
  {
    hide Row, Height, PutAll;
    var p, want := Position(l, i), Row(h, b, new_, l)[i];
    var m1 := PutAll(store, res.leaves);
    if l == 0 {
      SuppliesAll(old_, new_, res.leaves);
      StartClean(h, b, old_, new_, res.leaves);
      if i !in Indexes(res.leaves) { assert CleanAt(h, b, old_, new_, 0, i); }
      PutAllAt(store, res.leaves, p, want);
    } else if !Has(res.branches, p) {
      assert CleanAt(h, b, old_, new_, l, i);
      LeavesElsewhere(res.leaves, new_, p);
      PutAllAt(store, res.leaves, p, want);
    }
    forall k | 0 <= k < |res.branches| && res.branches[k].position == p ensures res.branches[k].data == want {
      assert RightNode(h, b, new_, res.branches[k]);
    }
    PutAllAt(m1, res.branches, p, want);
  }

  lemma LeavesElsewhere(leaves: seq<Node>, new_: seq<Bytes>, p: Position)
    requires OfRow(leaves, 0, new_) && p.level > 0
    ensures forall k :: 0 <= k < |leaves| ==> leaves[k].position != p
  {
  }

  // ------------------------------------------------ verification

  ghost predicate Distinct(ns: seq<Node>) {
    forall i, j :: 0 <= i < j < |ns| ==> ns[i].position != ns[j].position
  }

  ghost predicate Askable(leaves: seq<Node>, stored: seq<Bytes>) {
    && leaves != [] && stored != []
    && forall k :: 0 <= k < |leaves| ==> leaves[k].position.level == 0 && leaves[k].position.index < |stored|
  }

  /** The stored leaves with the given ones in their places, a later one in the place of an earlier. */
  ghost function Overlay(stored: seq<Bytes>, leaves: seq<Node>): (r: seq<Bytes>)
    requires forall k :: 0 <= k < |leaves| ==> leaves[k].position.index < |stored|
    ensures |r| == |stored|
  {
    if leaves == [] then stored
    else
      var n := leaves[|leaves| - 1];
      Overlay(stored, leaves[..|leaves| - 1])[n.position.index := n.data]
  }

  /** What the leaves claim: of a tree of one leaf only the first of them counts. */
  ghost function Claimed(stored: seq<Bytes>, leaves: seq<Node>): (r: seq<Bytes>)
    requires Askable(leaves, stored)
    ensures |r| == |stored|
  {
    if |stored| == 1 then [leaves[0].data] else Overlay(stored, leaves)
  }

  lemma {:induction false} OverlayLast(stored: seq<Bytes>, leaves: seq<Node>)
    requires forall k :: 0 <= k < |leaves| ==> leaves[k].position.index < |stored|
    ensures forall i: nat :: i < |stored| ==>
      Overlay(stored, leaves)[i] == if LastAt(leaves, i).Some? then LastAt(leaves, i).value else stored[i]
  {
    if leaves != [] { OverlayLast(stored, leaves[..|leaves| - 1]); }
  }

  lemma OverlayIs(stored: seq<Bytes>, leaves: seq<Node>)
    requires Distinct(leaves)
    requires forall k :: 0 <= k < |leaves| ==> leaves[k].position.level == 0 && leaves[k].position.index < |stored|
    ensures forall k :: 0 <= k < |leaves| ==> Overlay(stored, leaves)[leaves[k].position.index] == leaves[k].data
    ensures forall i: nat :: i < |stored| && i !in Indexes(leaves) ==> Overlay(stored, leaves)[i] == stored[i]
  {
    hide LastAt, Overlay;
    OverlayLast(stored, leaves);
    forall k | 0 <= k < |leaves| ensures LastAt(leaves, leaves[k].position.index) == Some(leaves[k].data) {
      OnlyIsLast(leaves, k);
    }
    forall i: nat | i < |stored| && i !in Indexes(leaves) ensures Overlay(stored, leaves)[i] == stored[i] {
      LastIsSome(leaves, i);
    }
  }

  /** No later leaf is for the same place. */
  predicate IsLast(leaves: seq<Node>, k: nat)
    requires k < |leaves|
  {
    forall j :: k < j < |leaves| ==> leaves[j].position.index != leaves[k].position.index
  }

  lemma {:induction false} LastStands(leaves: seq<Node>, k: nat)
    requires k < |leaves| && IsLast(leaves, k)
    ensures LastAt(leaves, leaves[k].position.index) == Some(leaves[k].data)
  {
    if k < |leaves| - 1 { LastStands(leaves[..|leaves| - 1], k); }
  }

  lemma OnlyIsLast(leaves: seq<Node>, k: nat)
    requires Distinct(leaves) && k < |leaves|
    requires forall j :: 0 <= j < |leaves| ==> leaves[j].position.level == 0
    ensures IsLast(leaves, k) && LastAt(leaves, leaves[k].position.index) == Some(leaves[k].data)
  {
    hide LastAt;
    forall j | k < j < |leaves| ensures leaves[j].position.index != leaves[k].position.index {
      assert leaves[k].position != leaves[j].position;
    }
    LastStands(leaves, k);
  }

  /** What is said of a place in the end is said by the last leaf for it. */
  lemma {:induction false} SomeoneIsLast(leaves: seq<Node>, i: nat) returns (k: nat)
    requires i in Indexes(leaves)
    ensures k < |leaves| && leaves[k].position.index == i && IsLast(leaves, k)
  {
    var n := |leaves| - 1;
    if leaves[n].position.index == i {
      k := n;
    } else {
      AppendIndex(leaves[..n], leaves[n]);
      assert leaves[..n] + [leaves[n]] == leaves;
      k := SomeoneIsLast(leaves[..n], i);
    }
  }

  lemma OverlaySupplies(stored: seq<Bytes>, leaves: seq<Node>)
    requires Askable(leaves, stored)
    ensures SuppliesLast(stored, Overlay(stored, leaves), leaves)
  {
    hide LastAt, Overlay;
    OverlayLast(stored, leaves);
    forall i: nat | i < |stored| ensures i in Indexes(leaves) <==> LastAt(leaves, i).Some? {
      LastIsSome(leaves, i);
    }
  }

  /** The claims that count: the last for each place, or the first of all for a tree of one leaf. */
  predicate Counts(leaves: seq<Node>, n: nat, k: nat)
    requires k < |leaves|
  {
    if n == 1 then k == 0 else IsLast(leaves, k)
  }

  /** The claims that count are the stored leaves, exactly when what is claimed is what is stored. */
  lemma ClaimedSame(stored: seq<Bytes>, leaves: seq<Node>)
    requires Askable(leaves, stored)
    ensures Claimed(stored, leaves) == stored <==> forall k :: 0 <= k < |leaves| && Counts(leaves, |stored|, k) ==>
      leaves[k].data == stored[leaves[k].position.index]
  {
    hide LastAt, Overlay, IsLast;
    OverlayLast(stored, leaves);
    if |stored| != 1 {
      forall k | 0 <= k < |leaves| && IsLast(leaves, k)
        ensures Claimed(stored, leaves)[leaves[k].position.index] == leaves[k].data
      {
        LastStands(leaves, k);
      }
      forall i: nat | i < |stored|
        ensures i in Indexes(leaves) ==> exists k ::
          0 <= k < |leaves| && IsLast(leaves, k) && leaves[k].position.index == i
        ensures i !in Indexes(leaves) ==> Claimed(stored, leaves)[i] == stored[i]
      {
        LastIsSome(leaves, i);
        if i in Indexes(leaves) {
          var k := SomeoneIsLast(leaves, i);
        }
      }
    }
  }

  /**
   * What a successful verification means: with no collision among the strings hashed in the two trees,
   * the root matches if and only if every claimed leaf that counts is the stored one; with one claim for
   * each place, that is every claimed leaf.
   */
  lemma VerifyMeans(h: Hash, b: nat, stored: seq<Bytes>, leaves: seq<Node>, d: nat)
    requires b >= 2 && Askable(leaves, stored)
    requires AllOfLength(stored, d) && (forall x :: |h(x)| == d)
    requires forall k :: 0 <= k < |leaves| ==> |leaves[k].data| == d
    requires !Colliding(h, b, Claimed(stored, leaves), stored)
    ensures RootOf(h, b, Claimed(stored, leaves)) == RootOf(h, b, stored)
      <==> forall k :: 0 <= k < |leaves| && Counts(leaves, |stored|, k) ==>
        leaves[k].data == stored[leaves[k].position.index]
    ensures Distinct(leaves) ==> forall k :: 0 <= k < |leaves| ==> Counts(leaves, |stored|, k)
  {
    hide RootOf, Colliding, Overlay, LastAt;
    var claimed := Claimed(stored, leaves);
    ClaimedSame(stored, leaves);
    OverlayLast(stored, leaves);
    forall i: nat | i < |claimed| ensures |claimed[i]| == d {
      LastIsSome(leaves, i);
      if |stored| != 1 && i in Indexes(leaves) {
        var k := SomeoneIsLast(leaves, i);
        LastStands(leaves, k);
      }
    }
    if RootOf(h, b, claimed) == RootOf(h, b, stored) {
      RootBinds(h, b, claimed, stored, d);
    }
    if Distinct(leaves) {
      AllCount(stored, leaves);
    }
  }

  lemma AllCount(stored: seq<Bytes>, leaves: seq<Node>)
    requires Askable(leaves, stored) && Distinct(leaves)
    ensures forall k :: 0 <= k < |leaves| ==> Counts(leaves, |stored|, k)
  {
    forall k | 0 <= k < |leaves| ensures Counts(leaves, |stored|, k) {
      OnlyIsLast(leaves, k);
      assert k > 0 ==> leaves[0].position != leaves[k].position;
    }
  }
}
