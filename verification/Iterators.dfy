// Iterating over the overlay and the backend at once.
module Iterators {
  import opened ByteStrings
  import opened SkipList
  import opened MemDBStore

  /** How far an iteration has come. */
  datatype Mark = Start | At(key: Bytes)

  predicate Above(a: Mark, k: Bytes) {
    a.Start? || Less(a.key, k)
  }

  /** `k` is the first key with the prefix beyond the mark. */
  ghost predicate IsNext(m: map<Bytes, Bytes>, prefix: Bytes, a: Mark, k: Bytes) {
    && k in m && HasPrefix(k, prefix) && Above(a, k)
    && forall k' :: k' in m && HasPrefix(k', prefix) && Above(a, k') ==> AtMost(k, k')
  }

  ghost predicate NoneAbove(m: map<Bytes, Bytes>, prefix: Bytes, a: Mark) {
    forall k :: k in m && HasPrefix(k, prefix) ==> !Above(a, k)
  }

  // ------------------------------------------------ over the skip list

  /** The nodes before index r are done with, and node r is where the iteration goes on. */
  ghost predicate Splits(kv: Bytes, nd: seq<int>, nodes: seq<int>, prefix: Bytes, a: Mark, r: nat) {
    && 1 <= r <= |nodes| && (forall i :: 0 <= i < |nodes| ==> NodeOk(kv, nd, nodes[i]))
    && (forall i :: 1 <= i < r ==> !(HasPrefix(Key(kv, nd, nodes[i]), prefix) && Above(a, Key(kv, nd, nodes[i]))))
    && (r < |nodes| ==> !Less(Key(kv, nd, nodes[r]), prefix) && Above(a, Key(kv, nd, nodes[r])))
  }

  /** The node after node i holds the next key of the map, unless it is past the prefix. */
  lemma NodeAfter(kv: Bytes, nd: seq<int>, nodes: seq<int>, maxHeight: int, m: map<Bytes, Bytes>,
                  prefix: Bytes, a: Mark, r: nat)
    requires Shape(kv, nd, nodes, maxHeight) && Represents(kv, nd, nodes, m) && Splits(kv, nd, nodes, prefix, a, r)
    ensures r == |nodes| ==> NoneAbove(m, prefix, a)
    ensures r < |nodes| ==>
      if BelowLimit(Key(kv, nd, nodes[r]), PrefixLimit(prefix)) then IsNext(m, prefix, a, Key(kv, nd, nodes[r]))
      else NoneAbove(m, prefix, a)
  {
    hide LinksOk, Key, Val, NodeOk, Less, NodeHeight, Apart, HasPrefix, PrefixLimit, BelowLimit;
    forall k | k in m && HasPrefix(k, prefix) && Above(a, k) ensures r < |nodes| && AtMost(Key(kv, nd, nodes[r]), k) {
      var i :| 1 <= i < |nodes| && Key(kv, nd, nodes[i]) == k;
      assert i >= r;
    }
    if r < |nodes| {
      var kr := Key(kv, nd, nodes[r]);
      PrefixRange(prefix, kr);
      if !BelowLimit(kr, PrefixLimit(prefix)) {
        forall k | k in m && HasPrefix(k, prefix) ensures !Above(a, k) {
          PrefixRange(prefix, k);
          if AtMost(kr, k) { BelowLimitDown(kr, k, PrefixLimit(prefix)); }
        }
      }
    }
  }

  lemma BelowLimitDown(a: Bytes, b: Bytes, l: Limit)
    requires AtMost(a, b) && BelowLimit(b, l)
    ensures BelowLimit(a, l)
  {
    if a != b && l.Upto? { LessTransitive(a, b, l.limit); }
  }

  class DbIter {
    const p: MemDB
    const prefix: Bytes
    var node: int
    var key: Bytes
    var value: Bytes

    ghost predicate Valid()
      reads this, p
    {
      && p.Valid()
      && (node == 0 ==> key == [] && value == [])
      && (node != 0 ==> Sits(p.kvData, p.nodeData, p.nodes, node, key) && HasPrefix(key, prefix))
    }

    constructor (p: MemDB, prefix: Bytes)
      requires p.Valid()
      ensures Valid() && this.p == p && this.prefix == prefix && node == 0
    {
      this.p, this.prefix := p, prefix;
      node, key, value := 0, [], [];
    }

    /** Shows the entry at `node`, or steps off the end when it lies past the prefix. */
    method Fill(ghost r: nat, ghost a: Mark) returns (ok: bool)
      requires p.Valid() && node == LinkTo(p.nodes, r)
      requires Splits(p.kvData, p.nodeData, p.nodes, prefix, a, r)
      modifies this
      ensures Valid() && ok == (node != 0)
      ensures ok ==> IsNext(p.contents, prefix, a, key) && value == p.contents[key]
      ensures !ok ==> NoneAbove(p.contents, prefix, a)
    {
      hide Shape, Represents, Key, Val, NodeOk, Less, HasPrefix, PrefixLimit, BelowLimit, Above;
      NodeAfter(p.kvData, p.nodeData, p.nodes, p.maxHeight, p.contents, prefix, a, r);
      EndIsZero(p.kvData, p.nodeData, p.nodes, p.maxHeight, r);
      if node != 0 {
        KeyPresent(p.kvData, p.nodeData, p.nodes, p.maxHeight, p.contents, r);
        key := Key(p.kvData, p.nodeData, node);
        if BelowLimit(key, PrefixLimit(prefix)) {
          value := Val(p.kvData, p.nodeData, node);
          return true;
        }
        node := 0;
      }
      key, value := [], [];
      return false;
    }

    method First() returns (ok: bool)
      requires p.Valid()
      modifies this, p`prevNode
      ensures Valid() && ok == (node != 0)
      ensures ok ==> IsNext(p.contents, prefix, Start, key) && value == p.contents[key]
      ensures !ok ==> NoneAbove(p.contents, prefix, Start)
    {
      hide Shape, Represents, Key, Val, NodeOk, Less, PrefixLimit, Separates, Splits;
      ghost var r, at;
      var exact;
      node, exact, r, at := p.FindGE(prefix, false);
      FromStart(p.kvData, p.nodeData, p.nodes, prefix, r);
      ok := Fill(r, Start);
    }

    /** Moves on from a key; once off the end it stays there. */
    method Next() returns (ok: bool)
      requires Valid()
      modifies this
      ensures Valid() && ok == (node != 0)
      ensures old(node) == 0 ==> !ok
      ensures old(node) != 0 && ok ==> IsNext(p.contents, prefix, At(old(key)), key) && value == p.contents[key]
      ensures old(node) != 0 && !ok ==> NoneAbove(p.contents, prefix, At(old(key)))
    {
      hide Shape, Represents, Key, Val, NodeOk, Less, HasPrefix, PrefixLimit, Splits;
      if node == 0 {
        return false;
      }
      ghost var i :| 1 <= i < |p.nodes| && p.nodes[i] == node;
      ghost var k := key;
      BottomLink(p.kvData, p.nodeData, p.nodes, p.maxHeight, i);
      AfterKey(p.kvData, p.nodeData, p.nodes, p.maxHeight, prefix, i);
      node := p.nodeData[node + NEXT];
      ok := Fill(i + 1, At(k));
    }
  }

  /** A cursor sits on an entry of the list. */
  ghost predicate Sits(kv: Bytes, nd: seq<int>, nodes: seq<int>, node: int, key: Bytes) {
    && (exists i :: 1 <= i < |nodes| && nodes[i] == node)
    && NodeOk(kv, nd, node) && Key(kv, nd, node) == key
  }

  lemma FromStart(kv: Bytes, nd: seq<int>, nodes: seq<int>, prefix: Bytes, r: nat)
    requires Separates(kv, nd, nodes, prefix, r)
    ensures Splits(kv, nd, nodes, prefix, Start, r)
  {
    hide Key, NodeOk, Less, PrefixLimit, HasPrefix;
    forall i | 1 <= i < r ensures !HasPrefix(Key(kv, nd, nodes[i]), prefix) {
      PrefixRange(prefix, Key(kv, nd, nodes[i]));
    }
  }

  lemma AfterKey(kv: Bytes, nd: seq<int>, nodes: seq<int>, maxHeight: int, prefix: Bytes, i: nat)
    requires Shape(kv, nd, nodes, maxHeight) && 1 <= i < |nodes| && NodeOk(kv, nd, nodes[i])
    requires HasPrefix(Key(kv, nd, nodes[i]), prefix)
    ensures Splits(kv, nd, nodes, prefix, At(Key(kv, nd, nodes[i])), i + 1)
  {
    hide LinksOk, Key, Val, NodeHeight, Apart, Less, HasPrefix;
    var k := Key(kv, nd, nodes[i]);
    LessIrreflexive(k);
    forall j | 1 <= j < i ensures !Less(k, Key(kv, nd, nodes[j])) {
      LessAsymmetric(k, Key(kv, nd, nodes[j]));
    }
    if i + 1 < |nodes| {
      var k' := Key(kv, nd, nodes[i + 1]);
      PrefixRange(prefix, k);
      if Less(k', prefix) { LessTransitive(k, k', prefix); }
    }
  }

  /** Writing the overlay at a key already passed leaves the rest of the iteration as it was. */
  lemma WriteBehind(m: map<Bytes, Bytes>, prefix: Bytes, a: Mark, key: Bytes, value: Bytes)
    requires !Above(a, key)
    ensures forall k :: IsNext(m, prefix, a, k) ==> IsNext(m[key := value], prefix, a, k)
    ensures NoneAbove(m, prefix, a) ==> NoneAbove(m[key := value], prefix, a)
  {
  }

  lemma SitsStill(kv: Bytes, nd: seq<int>, nodes: seq<int>, kv': Bytes, nd': seq<int>, nodes': seq<int>,
                  maxHeight': int, node: int, key: Bytes)
    requires Sits(kv, nd, nodes, node, key) && SameKeys(kv, nd, nodes, kv', nd', nodes')
    requires Shape(kv', nd', nodes', maxHeight') && node != 0
    ensures Sits(kv', nd', nodes', node, key)
  {
    hide Shape, Key, NodeOk;
    HeadIsFirst(kv', nd', nodes', maxHeight');
    var i :| 1 <= i < |nodes| && nodes[i] == node;
    assert nodes[i] in nodes';
  }

  // ------------------------------------------------ over the backend

  /** The backend's iterator: a sorted snapshot of the entries with the prefix. */
  class BackIter {
    const entries: seq<(Bytes, Bytes)>
    var pos: nat

    ghost predicate Valid()
      reads this
    {
      pos <= |entries| && forall i, j :: 0 <= i < j < |entries| ==> Less(entries[i].0, entries[j].0)
    }

    constructor (entries: seq<(Bytes, Bytes)>)
      requires forall i, j :: 0 <= i < j < |entries| ==> Less(entries[i].0, entries[j].0)
      ensures Valid() && this.entries == entries
    {
      this.entries, pos := entries, 0;
    }

    function Key(): Bytes
      reads this
    {
      if pos < |entries| then entries[pos].0 else []
    }

    function Value(): Bytes
      reads this
    {
      if pos < |entries| then entries[pos].1 else []
    }

    method First() returns (ok: bool)
      requires Valid()
      modifies this
      ensures Valid() && pos == 0 && ok == (pos < |entries|)
    {
      pos := 0;
      return pos < |entries|;
    }

    method Next() returns (ok: bool)
      requires Valid()
      modifies this
      ensures Valid() && ok == (pos < |entries|)
      ensures pos == if old(pos) < |entries| then old(pos) + 1 else old(pos)
    {
      if pos < |entries| {
        pos := pos + 1;
      }
      return pos < |entries|;
    }
  }

  /** The snapshot holds exactly the entries of the backend map with the prefix. */
  ghost predicate IsSnapshot(entries: seq<(Bytes, Bytes)>, b: map<Bytes, Bytes>, prefix: Bytes) {
    && (forall i, j :: 0 <= i < j < |entries| ==> Less(entries[i].0, entries[j].0))
    && (forall i :: 0 <= i < |entries| ==>
          entries[i].0 in b && b[entries[i].0] == entries[i].1 && HasPrefix(entries[i].0, prefix))
    && (forall k :: k in b && HasPrefix(k, prefix) ==> exists i :: 0 <= i < |entries| && entries[i].0 == k)
  }

  /** The cursor has passed exactly what the mark has passed. */
  ghost predicate BackAhead(entries: seq<(Bytes, Bytes)>, b: map<Bytes, Bytes>, prefix: Bytes, a: Mark, pos: nat) {
    pos <= |entries| &&
    if pos < |entries| then IsNext(b, prefix, a, entries[pos].0) else NoneAbove(b, prefix, a)
  }

  lemma BackFirst(entries: seq<(Bytes, Bytes)>, b: map<Bytes, Bytes>, prefix: Bytes)
    requires IsSnapshot(entries, b, prefix)
    ensures BackAhead(entries, b, prefix, Start, 0)
  {
    hide Less, HasPrefix;
    if |entries| > 0 {
      forall k | k in b && HasPrefix(k, prefix) ensures AtMost(entries[0].0, k) {
        var i :| 0 <= i < |entries| && entries[i].0 == k;
      }
    }
  }

  lemma BackNext(entries: seq<(Bytes, Bytes)>, b: map<Bytes, Bytes>, prefix: Bytes, pos: nat)
    requires IsSnapshot(entries, b, prefix) && pos < |entries|
    ensures BackAhead(entries, b, prefix, At(entries[pos].0), pos + 1)
  {
    hide Less, HasPrefix;
    var c := entries[pos].0;
    forall k | k in b && HasPrefix(k, prefix) && Less(c, k)
      ensures pos + 1 < |entries| && AtMost(entries[pos + 1].0, k)
    {
      var i :| 0 <= i < |entries| && entries[i].0 == k;
      if i < pos { LessAsymmetric(c, k); }
      LessIrreflexive(c);
    }
  }
}
