// The overlay store itself: search, insertion, lookup and traversal loops over
// the two arrays, proved to be a sorted map for every choice of node heights.
module MemDBStore {
  import opened ByteStrings
  import opened SkipList
  import opened SkipListInsert

  /** Replacing the value of the node at index q. An empty value keeps the old key bytes. */
  function OverwrittenKv(kv: Bytes, key: Bytes, value: Bytes): Bytes {
    if value != [] then kv + key + value else kv
  }

  function OverwrittenNd(kv: Bytes, nd: seq<int>, o: int, value: Bytes): seq<int>
    requires NodeOk(kv, nd, o)
  {
    if value != [] then nd[o := |kv|][o + VAL_LEN := |value|] else nd[o + VAL_LEN := 0]
  }

  /** Only two words of one header change. */
  lemma OverwriteWords(kv: Bytes, nd: seq<int>, nodes: seq<int>, maxHeight: int, q: nat, value: Bytes, i: nat, x: int)
    requires Placed(kv, nd, nodes, maxHeight) && q < |nodes| && i < |nodes|
    requires nodes[i] <= x < nodes[i] + NEXT + NodeHeight(nd, nodes[i])
    requires i == q ==> x != nodes[q] && x != nodes[q] + VAL_LEN
    ensures |OverwrittenNd(kv, nd, nodes[q], value)| == |nd| && 0 <= x < |nd|
    ensures OverwrittenNd(kv, nd, nodes[q], value)[x] == nd[x]
  {
    assert NodeOk(kv, nd, nodes[i]) && NodeOk(kv, nd, nodes[q]);
    if i < q { assert Apart(nd, nodes[i], nodes[q]); }
    if q < i { assert Apart(nd, nodes[q], nodes[i]); }
  }

  lemma OverwriteOther(kv: Bytes, nd: seq<int>, nodes: seq<int>, maxHeight: int, q: nat, value: Bytes, i: nat)
    requires Placed(kv, nd, nodes, maxHeight) && q < |nodes| && i < |nodes| && i != q
    ensures var kv', nd' := OverwrittenKv(kv, Key(kv, nd, nodes[q]), value), OverwrittenNd(kv, nd, nodes[q], value);
      && NodeOk(kv', nd', nodes[i])
      && NodeHeight(nd', nodes[i]) == NodeHeight(nd, nodes[i])
      && Key(kv', nd', nodes[i]) == Key(kv, nd, nodes[i])
      && Val(kv', nd', nodes[i]) == Val(kv, nd, nodes[i])
  {
    hide OverwrittenNd, Apart;
    assert NodeOk(kv, nd, nodes[i]) && NodeOk(kv, nd, nodes[q]);
    var o := nodes[i];
    OverwriteWords(kv, nd, nodes, maxHeight, q, value, i, o);
    OverwriteWords(kv, nd, nodes, maxHeight, q, value, i, o + KEY_LEN);
    OverwriteWords(kv, nd, nodes, maxHeight, q, value, i, o + VAL_LEN);
    OverwriteWords(kv, nd, nodes, maxHeight, q, value, i, o + HEIGHT);
  }

  lemma OverwriteSelf(kv: Bytes, nd: seq<int>, o: int, value: Bytes)
    requires NodeOk(kv, nd, o)
    ensures var kv', nd' := OverwrittenKv(kv, Key(kv, nd, o), value), OverwrittenNd(kv, nd, o, value);
      && NodeOk(kv', nd', o)
      && NodeHeight(nd', o) == NodeHeight(nd, o)
      && Key(kv', nd', o) == Key(kv, nd, o)
      && Val(kv', nd', o) == value
  {
    if value != [] {
      var key := Key(kv, nd, o);
      var kv' := kv + key + value;
      assert kv'[|kv|..|kv| + |key|] == key && kv'[|kv| + |key|..|kv| + |key| + |value|] == value;
    }
  }

  lemma OverwriteNode(kv: Bytes, nd: seq<int>, nodes: seq<int>, maxHeight: int, q: nat, value: Bytes, i: nat)
    requires Placed(kv, nd, nodes, maxHeight) && q < |nodes| && i < |nodes|
    ensures var kv', nd' := OverwrittenKv(kv, Key(kv, nd, nodes[q]), value), OverwrittenNd(kv, nd, nodes[q], value);
      && NodeOk(kv', nd', nodes[i])
      && NodeHeight(nd', nodes[i]) == NodeHeight(nd, nodes[i])
      && Key(kv', nd', nodes[i]) == Key(kv, nd, nodes[i])
      && Val(kv', nd', nodes[i]) == (if i == q then value else Val(kv, nd, nodes[i]))
  {
    hide OverwrittenNd, OverwrittenKv, Apart, NodeHeight, Key, Val;
    if i == q {
      OverwriteSelf(kv, nd, nodes[q], value);
    } else {
      OverwriteOther(kv, nd, nodes, maxHeight, q, value, i);
    }
  }

  lemma OverwriteKeepsShape(kv: Bytes, nd: seq<int>, nodes: seq<int>, maxHeight: int, q: nat, value: Bytes,
                            m: map<Bytes, Bytes>)
    requires Shape(kv, nd, nodes, maxHeight) && Represents(kv, nd, nodes, m) && 1 <= q < |nodes|
    ensures var kv', nd' := OverwrittenKv(kv, Key(kv, nd, nodes[q]), value), OverwrittenNd(kv, nd, nodes[q], value);
      Shape(kv', nd', nodes, maxHeight) && Represents(kv', nd', nodes, m[Key(kv, nd, nodes[q]) := value])
  {
    hide Less, Key, Val, Represents, NodeOk, NodeHeight, OverwrittenKv, OverwrittenNd;
    var kv', nd' := OverwrittenKv(kv, Key(kv, nd, nodes[q]), value), OverwrittenNd(kv, nd, nodes[q], value);
    forall i | 0 <= i < |nodes|
      ensures NodeOk(kv', nd', nodes[i]) && NodeHeight(nd', nodes[i]) == NodeHeight(nd, nodes[i])
      ensures Key(kv', nd', nodes[i]) == Key(kv, nd, nodes[i])
      ensures Val(kv', nd', nodes[i]) == (if i == q then value else Val(kv, nd, nodes[i]))
    {
      OverwriteNode(kv, nd, nodes, maxHeight, q, value, i);
    }
    OverwriteLinks(kv, nd, nodes, maxHeight, q, value);
    OverwriteEntries(kv, nd, nodes, maxHeight, q, value, m);
  }

  lemma OverwriteLinks(kv: Bytes, nd: seq<int>, nodes: seq<int>, maxHeight: int, q: nat, value: Bytes)
    requires Shape(kv, nd, nodes, maxHeight) && q < |nodes|
    ensures var kv', nd' := OverwrittenKv(kv, Key(kv, nd, nodes[q]), value), OverwrittenNd(kv, nd, nodes[q], value);
      forall p: nat, h: nat :: p < |nodes| && h < NodeHeight(nd', nodes[p]) ==> LinkOk(nd', nodes, p, h)
  {
    hide KeysSorted, Less, OverwrittenNd, OverwrittenKv, NodeHeight, Key, Val, Apart;
    var kv', nd' := OverwrittenKv(kv, Key(kv, nd, nodes[q]), value), OverwrittenNd(kv, nd, nodes[q], value);
    forall i | 0 <= i < |nodes| ensures NodeHeight(nd', nodes[i]) == NodeHeight(nd, nodes[i]) {
      OverwriteNode(kv, nd, nodes, maxHeight, q, value, i);
    }
    forall p: nat, h: nat | p < |nodes| && h < NodeHeight(nd', nodes[p]) ensures LinkOk(nd', nodes, p, h) {
      OverwriteNode(kv, nd, nodes, maxHeight, q, value, p);
      assert LinkOk(nd, nodes, p, h);
      SuccUnique(nd', nodes, p + 1, h, Succ(nd, nodes, p + 1, h));
      OverwriteWords(kv, nd, nodes, maxHeight, q, value, p, nodes[p] + NEXT + h);
    }
  }

  lemma OverwriteEntries(kv: Bytes, nd: seq<int>, nodes: seq<int>, maxHeight: int, q: nat, value: Bytes,
                         m: map<Bytes, Bytes>)
    requires Shape(kv, nd, nodes, maxHeight) && Represents(kv, nd, nodes, m) && 1 <= q < |nodes|
    requires var kv', nd' := OverwrittenKv(kv, Key(kv, nd, nodes[q]), value), OverwrittenNd(kv, nd, nodes[q], value);
      forall i :: 0 <= i < |nodes| ==>
        && NodeOk(kv', nd', nodes[i]) && Key(kv', nd', nodes[i]) == Key(kv, nd, nodes[i])
        && Val(kv', nd', nodes[i]) == (if i == q then value else Val(kv, nd, nodes[i]))
    ensures var kv', nd' := OverwrittenKv(kv, Key(kv, nd, nodes[q]), value), OverwrittenNd(kv, nd, nodes[q], value);
      Represents(kv', nd', nodes, m[Key(kv, nd, nodes[q]) := value])
  {
    hide LinksOk, Key, Val, NodeOk, NodeHeight, OverwrittenKv, OverwrittenNd, Less;
    var key := Key(kv, nd, nodes[q]);
    LessIrreflexive(key);
    assert forall i :: 1 <= i < |nodes| && i != q ==> Key(kv, nd, nodes[i]) != key;
    var m' := m[key := value];
    forall k | k in m'
      ensures exists i :: 1 <= i < |nodes| && Key(kv, nd, nodes[i]) == k
    {
      if k == key { assert Key(kv, nd, nodes[q]) == k; }
    }
  }

  lemma OverwriteSameKeys(kv: Bytes, nd: seq<int>, nodes: seq<int>, maxHeight: int, q: nat, value: Bytes)
    requires Shape(kv, nd, nodes, maxHeight) && q < |nodes|
    ensures SameKeys(kv, nd, nodes,
      OverwrittenKv(kv, Key(kv, nd, nodes[q]), value), OverwrittenNd(kv, nd, nodes[q], value), nodes)
  {
    hide OverwrittenNd, OverwrittenKv, NodeHeight, Key, Val, KeysSorted, LinksOk;
    forall i | 0 <= i < |nodes|
      ensures NodeOk(OverwrittenKv(kv, Key(kv, nd, nodes[q]), value), OverwrittenNd(kv, nd, nodes[q], value), nodes[i])
      ensures Key(OverwrittenKv(kv, Key(kv, nd, nodes[q]), value), OverwrittenNd(kv, nd, nodes[q], value), nodes[i])
        == Key(kv, nd, nodes[i])
    {
      OverwriteNode(kv, nd, nodes, maxHeight, q, value, i);
    }
  }

  lemma InsertSameKeys(n: Ins)
    requires n.Ok()
    ensures SameKeys(n.kv, n.nd, n.nodes, n.Kv(), n.Nd(), n.Nodes())
  {
    hide Shape, Separates, HangsAt, Thread, Ins.Nd, Key, Val, NodeOk, NodeHeight;
    Split(n);
    forall i | 0 <= i < |n.nodes|
      ensures n.nodes[i] in n.Nodes() && NodeOk(n.kv, n.nd, n.nodes[i]) && NodeOk(n.Kv(), n.Nd(), n.nodes[i])
      ensures Key(n.kv, n.nd, n.nodes[i]) == Key(n.Kv(), n.Nd(), n.nodes[i])
    {
      OldOk(n, i);
      OldNode(n, i);
      NodesAt(n, if i < n.r then i else i + 1);
    }
  }

  /** Where the list splits at `key`, said of the map: the node there is the least key not below it. */
  lemma SplitMeaning(kv: Bytes, nd: seq<int>, nodes: seq<int>, maxHeight: int, m: map<Bytes, Bytes>, key: Bytes, r: nat)
    requires Shape(kv, nd, nodes, maxHeight) && Represents(kv, nd, nodes, m)
    requires Separates(kv, nd, nodes, key, r)
    ensures 1 <= r <= |nodes|
    ensures r < |nodes| ==> NodeOk(kv, nd, nodes[r]) && IsLeastFrom(m, key, Key(kv, nd, nodes[r]))
    ensures r == |nodes| ==> forall k :: k in m ==> Less(k, key)
    ensures key in m <==> r < |nodes| && Key(kv, nd, nodes[r]) == key
  {
    hide LinksOk, Key, Val, NodeOk, Less, NodeHeight, Apart;
    LessIrreflexive(key);
    if r < |nodes| {
      LessAsymmetric(Key(kv, nd, nodes[r]), key);
    }
    forall k | k in m && !Less(k, key) ensures r < |nodes| && AtMost(Key(kv, nd, nodes[r]), k) {
      NotBefore(kv, nd, nodes, maxHeight, m, key, r, k);
    }
  }

  lemma NotBefore(kv: Bytes, nd: seq<int>, nodes: seq<int>, maxHeight: int, m: map<Bytes, Bytes>, key: Bytes, r: nat,
                  k: Bytes)
    requires Shape(kv, nd, nodes, maxHeight) && Represents(kv, nd, nodes, m)
    requires Separates(kv, nd, nodes, key, r) && k in m && !Less(k, key)
    ensures r < |nodes| && AtMost(Key(kv, nd, nodes[r]), k)
  {
    hide LinksOk, Key, Val, NodeOk, Less, NodeHeight, Apart;
    var i :| 1 <= i < |nodes| && Key(kv, nd, nodes[i]) == k;
    assert i >= r;
  }

  ghost predicate IsLeastFrom(m: map<Bytes, Bytes>, key: Bytes, k: Bytes) {
    k in m && !Less(k, key) && forall k' :: k' in m && !Less(k', key) ==> AtMost(k, k')
  }

  ghost predicate IsGreatestBelow(m: map<Bytes, Bytes>, key: Bytes, k: Bytes) {
    k in m && Less(k, key) && forall k' :: k' in m && Less(k', key) ==> AtMost(k', k)
  }

  ghost predicate IsGreatest(m: map<Bytes, Bytes>, k: Bytes) {
    k in m && forall k' :: k' in m ==> AtMost(k', k)
  }

  /** The node before the split holds the greatest key below, the head stands for none. */
  lemma LastBelow(kv: Bytes, nd: seq<int>, nodes: seq<int>, maxHeight: int, m: map<Bytes, Bytes>, key: Bytes, p: nat)
    requires Shape(kv, nd, nodes, maxHeight) && Represents(kv, nd, nodes, m)
    requires p < |nodes| && Separates(kv, nd, nodes, key, p + 1)
    ensures nodes[p] == 0 ==> forall k :: k in m ==> !Less(k, key)
    ensures nodes[p] != 0 ==> NodeOk(kv, nd, nodes[p]) && IsGreatestBelow(m, key, Key(kv, nd, nodes[p]))
  {
    hide LinksOk, Key, Val, NodeOk, Less, NodeHeight;
    HeadAlone(kv, nd, nodes, maxHeight, p);
    forall k | k in m && Less(k, key) ensures p > 0 && AtMost(k, Key(kv, nd, nodes[p])) {
      var i :| 1 <= i < |nodes| && Key(kv, nd, nodes[i]) == k;
      assert i <= p;
    }
  }

  lemma LastIsGreatest(kv: Bytes, nd: seq<int>, nodes: seq<int>, maxHeight: int, m: map<Bytes, Bytes>, p: nat)
    requires Shape(kv, nd, nodes, maxHeight) && Represents(kv, nd, nodes, m) && p + 1 == |nodes|
    ensures nodes[p] == 0 <==> m == map[]
    ensures nodes[p] != 0 ==> NodeOk(kv, nd, nodes[p]) && IsGreatest(m, Key(kv, nd, nodes[p]))
  {
    hide LinksOk, Key, Val, NodeOk, Less, NodeHeight;
    HeadAlone(kv, nd, nodes, maxHeight, p);
    forall k | k in m ensures p > 0 && AtMost(k, Key(kv, nd, nodes[p])) {
      var i :| 1 <= i < |nodes| && Key(kv, nd, nodes[i]) == k;
    }
  }

  lemma HeadAlone(kv: Bytes, nd: seq<int>, nodes: seq<int>, maxHeight: int, p: nat)
    requires Shape(kv, nd, nodes, maxHeight) && p < |nodes|
    ensures nodes[p] == 0 <==> p == 0
  {
    if p > 0 { assert Apart(nd, nodes[0], nodes[p]); }
  }

  /** What the callers of the store see of a traversal: all entries, in ascending key order. */
  ghost predicate IsTraversal(m: map<Bytes, Bytes>, visited: seq<(Bytes, Bytes)>) {
    && (forall i, j :: 0 <= i < j < |visited| ==> Less(visited[i].0, visited[j].0))
    && (forall i :: 0 <= i < |visited| ==> visited[i].0 in m && m[visited[i].0] == visited[i].1)
    && (forall k :: k in m ==> exists i :: 0 <= i < |visited| && visited[i].0 == k)
  }

  /** The nodes of the first list are still there, under the same keys. */
  ghost predicate SameKeys(kv: Bytes, nd: seq<int>, nodes: seq<int>, kv': Bytes, nd': seq<int>, nodes': seq<int>) {
    forall i :: 0 <= i < |nodes| ==>
      && nodes[i] in nodes' && NodeOk(kv, nd, nodes[i]) && NodeOk(kv', nd', nodes[i])
      && Key(kv, nd, nodes[i]) == Key(kv', nd', nodes[i])
  }

  class MemDB {
    var kvData: Bytes
    var nodeData: seq<int>
    var prevNode: seq<int>
    var maxHeight: int
    var n: nat

    /** The head and the entries in key order, and the map they stand for. */
    ghost var nodes: seq<int>
    ghost var contents: map<Bytes, Bytes>

    ghost predicate Valid()
      reads this
    {
      && Shape(kvData, nodeData, nodes, maxHeight)
      && Represents(kvData, nodeData, nodes, contents)
      && |prevNode| == MAX_HEIGHT
      && n == |contents|
    }

    constructor ()
      ensures Valid() && contents == map[]
    {
      kvData := [];
      nodeData := [0, 0, 0, MAX_HEIGHT] + seq(MAX_HEIGHT, _ => 0);
      prevNode := seq(MAX_HEIGHT, _ => 0);
      maxHeight, n := 1, 0;
      nodes, contents := [0], map[];
    }

    /**
     * Walks right while the next key is smaller, else down. With `prev` it goes down to level 0 and
     * leaves in prevNode, for every level in use, the last node below `key`.
     */
    method FindGE(key: Bytes, prev: bool) returns (node: int, exact: bool, ghost r: nat, ghost at: seq<nat>)
      requires Valid()
      modifies this`prevNode
      ensures Valid()
      ensures Separates(kvData, nodeData, nodes, key, r) && node == LinkTo(nodes, r)
      ensures 1 <= r <= |nodes| && (r < |nodes| ==> NodeOk(kvData, nodeData, nodes[r]))
      ensures exact <==> r < |nodes| && Key(kvData, nodeData, nodes[r]) == key
      ensures prev ==> |at| == maxHeight && forall h :: 0 <= h < maxHeight ==>
        HangsAt(kvData, nodeData, nodes, key, h, at[h]) && prevNode[h] == PlaceOf(nodes, at[h])
      ensures !prev ==> prevNode == old(prevNode)
    {
      hide Shape, Represents, NodeHeight, NodeOk, Less, Key, Separates, HangsAt, Succ, LinkTo;
      HeadIsFirst(kvData, nodeData, nodes, maxHeight);
      node := 0;
      var h := maxHeight - 1;
      ghost var p := 0;
      at := seq(maxHeight, _ => 0);
      while true
        invariant |prevNode| == MAX_HEIGHT && |at| == maxHeight
        invariant 0 <= h < maxHeight && node == PlaceOf(nodes, p)
        invariant Before(kvData, nodeData, nodes, key, h, p)
        invariant prev ==> forall g :: h < g < maxHeight ==>
          HangsAt(kvData, nodeData, nodes, key, g, at[g]) && prevNode[g] == PlaceOf(nodes, at[g])
        invariant !prev ==> prevNode == old(prevNode)
        decreases h, |nodes| - p
      {
        NextNode(kvData, nodeData, nodes, maxHeight, key, h, p);
        var next := nodeData[node + NEXT + h];
        ghost var q := Succ(nodeData, nodes, p + 1, h);
        var cmp := 1;
        if next != 0 {
          cmp := Compare(Key(kvData, nodeData, next), key);
        }
        if cmp < 0 {
          node, p := next, q;
        } else {
          if prev {
            prevNode := prevNode[h := node];
            at := at[h := p];
          } else if cmp == 0 {
            FoundAt(kvData, nodeData, nodes, maxHeight, key, q);
            return next, true, q, at;
          }
          if h == 0 {
            Bottom(kvData, nodeData, nodes, maxHeight, key, p);
            return next, cmp == 0, q, at;
          }
          LowerLevel(kvData, nodeData, nodes, key, h, p);
          h := h - 1;
        }
      }
    }

    /** The last node below `key`, the head if there is none. */
    method FindLT(key: Bytes) returns (node: int, ghost p: nat)
      requires Valid()
      ensures p < |nodes| && node == nodes[p] && Separates(kvData, nodeData, nodes, key, p + 1)
      ensures node == 0 ==> forall k :: k in contents ==> !Less(k, key)
      ensures node != 0 ==>
        NodeOk(kvData, nodeData, node) && IsGreatestBelow(contents, key, Key(kvData, nodeData, node))
    {
      hide Shape, Represents, NodeHeight, NodeOk, Less, Key, Separates, HangsAt, Succ, LinkTo;
      HeadIsFirst(kvData, nodeData, nodes, maxHeight);
      node, p := 0, 0;
      var h := maxHeight - 1;
      while true
        invariant 0 <= h < maxHeight && node == PlaceOf(nodes, p)
        invariant Before(kvData, nodeData, nodes, key, h, p)
        decreases h, |nodes| - p
      {
        NextNode(kvData, nodeData, nodes, maxHeight, key, h, p);
        var next := nodeData[node + NEXT + h];
        if next == 0 || Compare(Key(kvData, nodeData, next), key) >= 0 {
          if h == 0 {
            Bottom(kvData, nodeData, nodes, maxHeight, key, p);
            LastBelow(kvData, nodeData, nodes, maxHeight, contents, key, p);
            return;
          }
          LowerLevel(kvData, nodeData, nodes, key, h, p);
          h := h - 1;
        } else {
          node, p := next, Succ(nodeData, nodes, p + 1, h);
        }
      }
    }

    /** The node of the greatest key, the head of an empty store. */
    method FindLast() returns (node: int, ghost p: nat)
      requires Valid()
      ensures p + 1 == |nodes| && node == nodes[p]
      ensures node == 0 <==> contents == map[]
      ensures node != 0 ==> NodeOk(kvData, nodeData, node) && IsGreatest(contents, Key(kvData, nodeData, node))
    {
      hide Represents, NodeOk, Less, Key, KeysSorted;
      HeadIsFirst(kvData, nodeData, nodes, maxHeight);
      node, p := 0, 0;
      var h := maxHeight - 1;
      while true
        invariant 0 <= h < maxHeight && p < |nodes| && node == nodes[p] && h < NodeHeight(nodeData, node)
        decreases h, |nodes| - p
      {
        assert LinkOk(nodeData, nodes, p, h);
        var next := nodeData[node + NEXT + h];
        ghost var q := Succ(nodeData, nodes, p + 1, h);
        NextIsNotBelow(kvData, nodeData, nodes, maxHeight, p, q, next);
        if next == 0 {
          if h == 0 {
            LevelZeroIsAll(kvData, nodeData, nodes, maxHeight, p);
            LastIsGreatest(kvData, nodeData, nodes, maxHeight, contents, p);
            return;
          }
          h := h - 1;
        } else {
          node, p := next, q;
        }
      }
    }

    /** Stores the value; an empty one is the tombstone of a deletion. `height` is the height drawn for a new node. */
    method Put(key: Bytes, value: Bytes, height: nat)
      requires Valid() && 1 <= height <= MAX_HEIGHT
      modifies this
      ensures Valid() && contents == old(contents)[key := value]
      ensures SameKeys(old(kvData), old(nodeData), old(nodes), kvData, nodeData, nodes)
    {
      hide Shape, Represents, NodeOk, Separates, HangsAt, SameKeys, Key;
      var node, exact, r, at := FindGE(key, true);
      if exact {
        Overwrite(node, key, value, r);
      } else {
        Insert(key, value, height, r, at);
      }
    }

    method Overwrite(node: int, key: Bytes, value: Bytes, ghost r: nat)
      requires Valid() && 1 <= r < |nodes| && node == nodes[r] && Key(kvData, nodeData, node) == key
      modifies this
      ensures Valid() && contents == old(contents)[key := value]
      ensures SameKeys(old(kvData), old(nodeData), old(nodes), kvData, nodeData, nodes)
    {
      hide Shape, Represents, NodeOk, SameKeys;
      NodeInRange(kvData, nodeData, nodes, maxHeight, r);
      OverwriteKeepsShape(kvData, nodeData, nodes, maxHeight, r, value, contents);
      OverwriteSameKeys(kvData, nodeData, nodes, maxHeight, r, value);
      KeyPresent(kvData, nodeData, nodes, maxHeight, contents, r);
      if value != [] {
        var kvOffset := |kvData|;
        kvData := kvData + key + value;
        nodeData := nodeData[node := kvOffset];
      }
      nodeData := nodeData[node + VAL_LEN := |value|];
      SizeWhenPresent(contents, key, value);
      contents := contents[key := value];
    }

    method Insert(key: Bytes, value: Bytes, height: nat, ghost r: nat, ghost at: seq<nat>)
      requires Valid() && 1 <= height <= MAX_HEIGHT
      requires Separates(kvData, nodeData, nodes, key, r)
      requires r < |nodes| ==> NodeOk(kvData, nodeData, nodes[r]) && Key(kvData, nodeData, nodes[r]) != key
      requires |at| == maxHeight
      requires forall h :: 0 <= h < maxHeight ==>
        HangsAt(kvData, nodeData, nodes, key, h, at[h]) && prevNode[h] == PlaceOf(nodes, at[h])
      modifies this
      ensures Valid() && contents == old(contents)[key := value]
      ensures SameKeys(old(kvData), old(nodeData), old(nodes), kvData, nodeData, nodes)
    {
      hide Shape, Represents, NodeOk, Separates, HangsAt, Thread, SameKeys;
      HeadIsFirst(kvData, nodeData, nodes, maxHeight);
      ghost var ins := PlanInsert(kvData, nodeData, nodes, maxHeight, key, value, height, r, at);
      InsertKeepsShape(ins, contents);
      InsertSameKeys(ins);
      SlotsFit(ins);
      var h := height;
      RaiseTo(h, ins);
      var kvOffset := |kvData|;
      kvData := kvData + key + value;
      var node := |nodeData|;
      nodeData := nodeData + [kvOffset, |key|, |value|, h];
      ThreadIn(node, h, ins.Prev());
      nodes := ins.Nodes();
      SizeWhenNew(contents, key, value);
      contents := contents[key := value];
      n := n + 1;
    }

    /** A node taller than all others hangs at the head on the levels it adds. */
    method RaiseTo(h: nat, ghost ins: Ins)
      requires 1 <= h <= MAX_HEIGHT && |prevNode| == MAX_HEIGHT && 1 <= maxHeight <= MAX_HEIGHT
      requires ins.Ok() && ins.h == h && ins.nodes == nodes && nodes[0] == 0
      requires forall g :: 0 <= g < h && g < maxHeight ==> prevNode[g] == PlaceOf(nodes, ins.at[g])
      requires forall g :: maxHeight <= g < h ==> ins.at[g] == 0
      requires forall g :: 0 <= g < h ==> ins.at[g] < |nodes|
      modifies this`prevNode, this`maxHeight
      ensures |prevNode| == MAX_HEIGHT && prevNode[..h] == ins.Prev()
      ensures maxHeight == if h > old(maxHeight) then h else old(maxHeight)
    {
      hide Shape, Separates, HangsAt;
      if h > maxHeight {
        for i := maxHeight to h
          invariant |prevNode| == MAX_HEIGHT
          invariant forall g :: 0 <= g < i ==> prevNode[g] == PlaceOf(nodes, ins.at[g])
          modifies this`prevNode
        {
          prevNode := prevNode[i := 0];
        }
        maxHeight := h;
      }
    }

    method ThreadIn(node: nat, h: nat, ghost prev: seq<int>)
      requires h <= |prevNode| && |prev| == h && prevNode[..h] == prev && SlotsIn(nodeData, prev, 0, h)
      modifies this`nodeData
      ensures nodeData == Thread(old(nodeData), node, prev, 0, h)
    {
      hide Thread;
      for i := 0 to h
        invariant SlotsIn(nodeData, prev, 0, h)
        invariant Thread(nodeData, node, prev, i, h) == Thread(old(nodeData), node, prev, 0, h)
      {
        ThreadStep(nodeData, node, prev, i, h);
        assert prevNode[i] == prevNode[..h][i];
        var m := prevNode[i] + NEXT + i;
        nodeData := (nodeData + [nodeData[m]])[m := node];
      }
      ThreadDone(nodeData, node, prev, h);
    }

    method Delete(key: Bytes, height: nat)
      requires Valid() && 1 <= height <= MAX_HEIGHT
      modifies this
      ensures Valid() && contents == old(contents)[key := []]
      ensures SameKeys(old(kvData), old(nodeData), old(nodes), kvData, nodeData, nodes)
    {
      Put(key, [], height);
    }

    /** The stored value, empty for a tombstone; `unknown` says that the key was never stored. */
    method Get(key: Bytes) returns (value: Bytes, unknown: bool)
      requires Valid()
      modifies this`prevNode
      ensures Valid() && prevNode == old(prevNode)
      ensures unknown <==> key !in contents
      ensures !unknown ==> value == contents[key]
    {
      hide Shape, Represents, NodeOk, Separates, Key, Val, Less;
      var node, exact, r, at := FindGE(key, false);
      SplitMeaning(kvData, nodeData, nodes, maxHeight, contents, key, r);
      value, unknown := [], !exact;
      if exact {
        NodeInRange(kvData, nodeData, nodes, maxHeight, r);
        KeyPresent(kvData, nodeData, nodes, maxHeight, contents, r);
        var valen := nodeData[node + VAL_LEN];
        if valen != 0 {
          var o := nodeData[node] + nodeData[node + KEY_LEN];
          value := kvData[o..o + valen];
        }
      }
    }

    /** The entry with the least key not below the given one. */
    method Find(key: Bytes) returns (found: bool, rkey: Bytes, value: Bytes)
      requires Valid()
      modifies this`prevNode
      ensures Valid() && prevNode == old(prevNode)
      ensures found ==> IsLeastFrom(contents, key, rkey) && value == contents[rkey]
      ensures !found ==> forall k :: k in contents ==> Less(k, key)
    {
      hide Shape, Represents, NodeOk, Key, Val, Less;
      var node, exact, r, at := FindGE(key, false);
      SplitMeaning(kvData, nodeData, nodes, maxHeight, contents, key, r);
      EndIsZero(kvData, nodeData, nodes, maxHeight, r);
      found, rkey, value := node != 0, [], [];
      if found {
        NodeInRange(kvData, nodeData, nodes, maxHeight, r);
        KeyPresent(kvData, nodeData, nodes, maxHeight, contents, r);
        rkey := Key(kvData, nodeData, node);
        value := Val(kvData, nodeData, node);
      }
    }

    /** Follows the bottom level from the head. */
    method ForEach() returns (visited: seq<(Bytes, Bytes)>)
      requires Valid()
      ensures IsTraversal(contents, visited)
    {
      hide Shape, Represents, NodeOk, Key, Val, Less, Succ, LinkTo, NodeHeight, IsTraversal;
      visited := [];
      ghost var p := 1;
      HeadIsFirst(kvData, nodeData, nodes, maxHeight);
      BottomLink(kvData, nodeData, nodes, maxHeight, 0);
      var node := nodeData[NEXT];
      while node != 0
        invariant 1 <= p <= |nodes| && node == LinkTo(nodes, p) && (node == 0 <==> p == |nodes|)
        invariant IsEntries(kvData, nodeData, nodes, p, visited)
        decreases |nodes| - p
      {
        BottomLink(kvData, nodeData, nodes, maxHeight, p);
        NodeInRange(kvData, nodeData, nodes, maxHeight, p);
        EntriesGrow(kvData, nodeData, nodes, p, visited);
        visited := visited + [(Key(kvData, nodeData, node), Val(kvData, nodeData, node))];
        node := nodeData[node + NEXT];
        p := p + 1;
      }
      TraversalOf(kvData, nodeData, nodes, maxHeight, contents, visited);
    }

    /** A store with arrays of its own and the same contents. */
    method DeepClone() returns (c: MemDB)
      requires Valid()
      ensures fresh(c) && c.Valid() && c.contents == contents
    {
      hide Shape, Represents;
      c := new MemDB();
      c.kvData, c.nodeData, c.prevNode := kvData, nodeData, prevNode;
      c.maxHeight, c.n := maxHeight, n;
      c.nodes, c.contents := nodes, contents;
    }

    method Reset()
      requires Valid()
      modifies this
      ensures Valid() && contents == map[]
    {
      hide Shape, Represents;
      HeadIsFirst(kvData, nodeData, nodes, maxHeight);
      maxHeight, n, kvData := 1, 0, [];
      nodeData := nodeData[..NEXT + MAX_HEIGHT];
      nodeData := nodeData[0 := 0][KEY_LEN := 0][VAL_LEN := 0][HEIGHT := MAX_HEIGHT];
      for i := 0 to MAX_HEIGHT
        invariant |nodeData| == NEXT + MAX_HEIGHT && |prevNode| == MAX_HEIGHT
        invariant nodeData[..NEXT] == [0, 0, 0, MAX_HEIGHT]
        invariant forall x :: NEXT <= x < NEXT + i ==> nodeData[x] == 0
        modifies this`nodeData, this`prevNode
      {
        nodeData := nodeData[NEXT + i := 0];
        prevNode := prevNode[i := 0];
      }
      nodes, contents := [0], map[];
      EmptyShape(nodeData);
    }
  }

  lemma EmptyShape(nd: seq<int>)
    requires |nd| == NEXT + MAX_HEIGHT && nd[..NEXT] == [0, 0, 0, MAX_HEIGHT]
    requires forall x :: NEXT <= x < |nd| ==> nd[x] == 0
    ensures Shape([], nd, [0], 1) && Represents([], nd, [0], map[])
  {
    assert nd[0] == nd[..NEXT][0] && nd[1] == nd[..NEXT][1] && nd[2] == nd[..NEXT][2] && nd[3] == nd[..NEXT][3];
  }

  lemma SizeWhenPresent<K, V>(m: map<K, V>, k: K, v: V)
    requires k in m
    ensures |m[k := v]| == |m|
  {
    assert m[k := v].Keys == m.Keys;
  }

  lemma SizeWhenNew<K, V>(m: map<K, V>, k: K, v: V)
    requires k !in m
    ensures |m[k := v]| == |m| + 1
  {
    assert m[k := v].Keys == m.Keys + {k};
  }

  lemma NodeInRange(kv: Bytes, nd: seq<int>, nodes: seq<int>, maxHeight: int, r: nat)
    requires Shape(kv, nd, nodes, maxHeight) && r < |nodes|
    ensures var o := nodes[r];
      && NodeOk(kv, nd, o) && 0 <= o && o + NEXT < |nd|
      && 0 <= nd[o] && 0 <= nd[o + KEY_LEN] && 0 <= nd[o + VAL_LEN]
      && nd[o] + nd[o + KEY_LEN] + nd[o + VAL_LEN] <= |kv|
      && Val(kv, nd, o) == kv[nd[o] + nd[o + KEY_LEN]..nd[o] + nd[o + KEY_LEN] + nd[o + VAL_LEN]]
  {
  }

  lemma KeyPresent(kv: Bytes, nd: seq<int>, nodes: seq<int>, maxHeight: int, m: map<Bytes, Bytes>, r: nat)
    requires Shape(kv, nd, nodes, maxHeight) && Represents(kv, nd, nodes, m) && 1 <= r < |nodes|
    ensures NodeOk(kv, nd, nodes[r]) && Key(kv, nd, nodes[r]) in m && m[Key(kv, nd, nodes[r])] == Val(kv, nd, nodes[r])
  {
  }

  lemma EndIsZero(kv: Bytes, nd: seq<int>, nodes: seq<int>, maxHeight: int, r: nat)
    requires Shape(kv, nd, nodes, maxHeight) && 1 <= r <= |nodes|
    ensures LinkTo(nodes, r) == 0 <==> r == |nodes|
  {
    NextIsNotBelow(kv, nd, nodes, maxHeight, 0, r, LinkTo(nodes, r));
  }

  lemma BottomLink(kv: Bytes, nd: seq<int>, nodes: seq<int>, maxHeight: int, p: nat)
    requires Shape(kv, nd, nodes, maxHeight) && p < |nodes|
    ensures NodeOk(kv, nd, nodes[p]) && 0 <= nodes[p] && nodes[p] + NEXT < |nd|
    ensures nd[nodes[p] + NEXT] == LinkTo(nodes, p + 1)
    ensures nd[nodes[p] + NEXT] == 0 <==> p + 1 == |nodes|
    ensures LinkTo(nodes, p) == nodes[p]
  {
    assert LinkOk(nd, nodes, p, 0);
    if p + 1 < |nodes| { assert NodeOk(kv, nd, nodes[p + 1]); }
    EndIsZero(kv, nd, nodes, maxHeight, p + 1);
  }

  /** The entries of nodes 1 to p - 1, in order. */
  ghost predicate IsEntries(kv: Bytes, nd: seq<int>, nodes: seq<int>, p: nat, visited: seq<(Bytes, Bytes)>) {
    1 <= p <= |nodes| && |visited| == p - 1 &&
    forall i :: 1 <= i < p ==>
      NodeOk(kv, nd, nodes[i]) && visited[i - 1] == (Key(kv, nd, nodes[i]), Val(kv, nd, nodes[i]))
  }

  lemma EntriesGrow(kv: Bytes, nd: seq<int>, nodes: seq<int>, p: nat, visited: seq<(Bytes, Bytes)>)
    requires IsEntries(kv, nd, nodes, p, visited) && p < |nodes| && NodeOk(kv, nd, nodes[p])
    ensures IsEntries(kv, nd, nodes, p + 1, visited + [(Key(kv, nd, nodes[p]), Val(kv, nd, nodes[p]))])
  {
  }

  lemma TraversalOf(kv: Bytes, nd: seq<int>, nodes: seq<int>, maxHeight: int, m: map<Bytes, Bytes>,
                    visited: seq<(Bytes, Bytes)>)
    requires Shape(kv, nd, nodes, maxHeight) && Represents(kv, nd, nodes, m)
    requires IsEntries(kv, nd, nodes, |nodes|, visited)
    ensures IsTraversal(m, visited)
  {
    hide Less, LinksOk, Key, Val, NodeHeight, NodeOk, Apart;
    forall i, j | 0 <= i < j < |visited| ensures Less(visited[i].0, visited[j].0) {
      assert visited[i].0 == Key(kv, nd, nodes[i + 1]) && visited[j].0 == Key(kv, nd, nodes[j + 1]);
    }
    forall i | 0 <= i < |visited| ensures visited[i].0 in m && m[visited[i].0] == visited[i].1 {
      assert visited[i] == (Key(kv, nd, nodes[i + 1]), Val(kv, nd, nodes[i + 1]));
    }
    forall k | k in m ensures exists i :: 0 <= i < |visited| && visited[i].0 == k {
      var i :| 1 <= i < |nodes| && Key(kv, nd, nodes[i]) == k;
      assert visited[i - 1].0 == k;
    }
  }

  lemma ThreadStep(nd: seq<int>, node: nat, prev: seq<int>, i: nat, h: nat)
    requires i < h <= |prev| && SlotsIn(nd, prev, 0, h)
    ensures var m := prev[i] + NEXT + i; var nd' := (nd + [nd[m]])[m := node];
      SlotsIn(nd', prev, 0, h) && Thread(nd, node, prev, i, h) == Thread(nd', node, prev, i + 1, h)
  {
  }

  lemma ThreadDone(nd: seq<int>, node: nat, prev: seq<int>, h: nat)
    requires h <= |prev|
    ensures Thread(nd, node, prev, h, h) == nd
  {
  }

  /** Above the tallest node so far a new one hangs directly at the head. */
  lemma HangsAtHead(kv: Bytes, nd: seq<int>, nodes: seq<int>, maxHeight: int, key: Bytes, h: nat)
    requires Shape(kv, nd, nodes, maxHeight) && maxHeight <= h < MAX_HEIGHT
    ensures HangsAt(kv, nd, nodes, key, h, 0)
  {
    SuccUnique(nd, nodes, 1, h, |nodes|);
  }

  ghost function PlanInsert(kv: Bytes, nd: seq<int>, nodes: seq<int>, maxHeight: int, key: Bytes, value: Bytes,
                            h: nat, r: nat, at: seq<nat>): (ins: Ins)
    requires Shape(kv, nd, nodes, maxHeight) && 1 <= h <= MAX_HEIGHT
    requires Separates(kv, nd, nodes, key, r)
    requires r < |nodes| ==> NodeOk(kv, nd, nodes[r]) && Key(kv, nd, nodes[r]) != key
    requires |at| == maxHeight && forall g :: 0 <= g < maxHeight ==> HangsAt(kv, nd, nodes, key, g, at[g])
    ensures ins.Ok() && ins.kv == kv && ins.nd == nd && ins.nodes == nodes && ins.maxHeight == maxHeight
    ensures ins.key == key && ins.value == value && ins.h == h && ins.r == r
    ensures |ins.at| == h && forall g :: 0 <= g < h ==>
      ins.at[g] < |nodes| && ins.at[g] == if g < maxHeight then at[g] else 0
  {
    var at' := seq(h, g requires 0 <= g => if g < maxHeight then at[g] else 0);
    assert forall g :: 0 <= g < h ==> HangsAt(kv, nd, nodes, key, g, at'[g]) by {
      forall g | 0 <= g < h ensures HangsAt(kv, nd, nodes, key, g, at'[g]) {
        if g >= maxHeight { HangsAtHead(kv, nd, nodes, maxHeight, key, g); }
      }
    }
    Ins(kv, nd, nodes, maxHeight, key, value, h, at', r)
  }

  ghost function PlaceOf(nodes: seq<int>, p: nat): int {
    if p < |nodes| then nodes[p] else 0
  }

  /** Node p reaches level h and its key, unless it is the head, is below the one searched for. */
  ghost predicate Before(kv: Bytes, nd: seq<int>, nodes: seq<int>, key: Bytes, h: nat, p: nat) {
    p < |nodes| && NodeOk(kv, nd, nodes[p]) && h < NodeHeight(nd, nodes[p]) &&
    (p > 0 ==> Less(Key(kv, nd, nodes[p]), key))
  }

  lemma HeadIsFirst(kv: Bytes, nd: seq<int>, nodes: seq<int>, maxHeight: int)
    requires Shape(kv, nd, nodes, maxHeight)
    ensures 1 <= maxHeight <= MAX_HEIGHT && |nodes| > 0 && nodes[0] == 0
    ensures NodeOk(kv, nd, 0) && NodeHeight(nd, 0) == MAX_HEIGHT
  {
  }

  lemma LowerLevel(kv: Bytes, nd: seq<int>, nodes: seq<int>, key: Bytes, h: nat, p: nat)
    requires Before(kv, nd, nodes, key, h, p) && h > 0
    ensures Before(kv, nd, nodes, key, h - 1, p)
  {
  }

  lemma LevelZeroIsAll(kv: Bytes, nd: seq<int>, nodes: seq<int>, maxHeight: int, p: nat)
    requires Placed(kv, nd, nodes, maxHeight) && p < |nodes|
    ensures Succ(nd, nodes, p + 1, 0) == p + 1
  {
    if p + 1 < |nodes| { assert NodeOk(kv, nd, nodes[p + 1]); }
  }

  /** Following a link: it leads to the next node of the level, and tells whether node p is the last one below. */
  lemma NextNode(kv: Bytes, nd: seq<int>, nodes: seq<int>, maxHeight: int, key: Bytes, h: nat, p: nat)
    requires Shape(kv, nd, nodes, maxHeight) && Before(kv, nd, nodes, key, h, p)
    ensures 0 <= nodes[p] && nodes[p] + NEXT + h < |nd|
    ensures var q, next := Succ(nd, nodes, p + 1, h), nd[nodes[p] + NEXT + h];
      && next == LinkTo(nodes, q) && p < q <= |nodes|
      && (next == 0 <==> q == |nodes|)
      && (next != 0 ==> NodeOk(kv, nd, next) && next == PlaceOf(nodes, q))
      && (next != 0 && Less(Key(kv, nd, next), key) ==> Before(kv, nd, nodes, key, h, q))
      && (next == 0 || !Less(Key(kv, nd, next), key) ==> HangsAt(kv, nd, nodes, key, h, p))
  {
    hide Less, KeysSorted, Key;
    assert LinkOk(nd, nodes, p, h);
    NextIsNotBelow(kv, nd, nodes, maxHeight, p, Succ(nd, nodes, p + 1, h), nd[nodes[p] + NEXT + h]);
  }

  lemma FoundAt(kv: Bytes, nd: seq<int>, nodes: seq<int>, maxHeight: int, key: Bytes, q: nat)
    requires Shape(kv, nd, nodes, maxHeight) && 1 <= q < |nodes|
    requires NodeOk(kv, nd, nodes[q]) && Key(kv, nd, nodes[q]) == key
    ensures Separates(kv, nd, nodes, key, q)
  {
    hide LinksOk, Less;
    SplitAtKey(kv, nd, nodes, key, q);
  }

  lemma Bottom(kv: Bytes, nd: seq<int>, nodes: seq<int>, maxHeight: int, key: Bytes, p: nat)
    requires Shape(kv, nd, nodes, maxHeight) && HangsAt(kv, nd, nodes, key, 0, p)
    ensures Succ(nd, nodes, p + 1, 0) == p + 1
    ensures Separates(kv, nd, nodes, key, p + 1)
  {
    hide LinksOk, Less;
    if p + 1 < |nodes| { assert NodeOk(kv, nd, nodes[p + 1]); }
    SplitHere(kv, nd, nodes, key, p);
  }

  /** A zero link means there is no further node; offset 0 is the head's. */
  lemma NextIsNotBelow(kv: Bytes, nd: seq<int>, nodes: seq<int>, maxHeight: int, p: nat, q: nat, next: int)
    requires Placed(kv, nd, nodes, maxHeight) && p < q <= |nodes| && next == LinkTo(nodes, q)
    ensures next == 0 <==> q == |nodes|
  {
    if q < |nodes| { assert Apart(nd, nodes[0], nodes[q]); }
  }
}
