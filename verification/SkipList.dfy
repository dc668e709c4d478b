// The layout of the overlay store: a skip list kept in one array of integers and
// one array of bytes, and what makes such a pair of arrays a sorted map.
module SkipList {
  import opened ByteStrings

  const MAX_HEIGHT: nat := 12
  const KEY_LEN: nat := 1
  const VAL_LEN: nat := 2
  const HEIGHT: nat := 3
  const NEXT: nat := 4

  /** A node is an offset into `nd`: key/value offset, key length, value length, height, then one link per level. */
  predicate NodeOk(kv: Bytes, nd: seq<int>, o: int) {
    && 0 <= o && o + NEXT < |nd|
    && 1 <= nd[o + HEIGHT] <= MAX_HEIGHT
    && o + NEXT + nd[o + HEIGHT] <= |nd|
    && 0 <= nd[o] && 0 <= nd[o + KEY_LEN] && 0 <= nd[o + VAL_LEN]
    && nd[o] + nd[o + KEY_LEN] + nd[o + VAL_LEN] <= |kv|
  }

  function NodeHeight(nd: seq<int>, o: int): int {
    if 0 <= o && o + HEIGHT < |nd| then nd[o + HEIGHT] else 0
  }

  function Key(kv: Bytes, nd: seq<int>, o: int): Bytes
    requires NodeOk(kv, nd, o)
  {
    kv[nd[o]..nd[o] + nd[o + KEY_LEN]]
  }

  function Val(kv: Bytes, nd: seq<int>, o: int): Bytes
    requires NodeOk(kv, nd, o)
  {
    kv[nd[o] + nd[o + KEY_LEN]..nd[o] + nd[o + KEY_LEN] + nd[o + VAL_LEN]]
  }

  predicate Apart(nd: seq<int>, a: int, b: int) {
    a + NEXT + NodeHeight(nd, a) <= b || b + NEXT + NodeHeight(nd, b) <= a
  }

  /** The first index from q on whose node reaches above level h; the length of the list if there is none. */
  ghost function Succ(nd: seq<int>, nodes: seq<int>, q: nat, h: int): (r: nat)
    requires q <= |nodes|
    ensures q <= r <= |nodes|
    ensures r < |nodes| ==> NodeHeight(nd, nodes[r]) > h
    ensures forall i :: q <= i < r ==> NodeHeight(nd, nodes[i]) <= h
    decreases |nodes| - q
  {
    if q == |nodes| then q
    else if NodeHeight(nd, nodes[q]) > h then q
    else Succ(nd, nodes, q + 1, h)
  }

  ghost function LinkTo(nodes: seq<int>, q: nat): int {
    if q < |nodes| then nodes[q] else 0
  }

  /** `nodes` lists the head and then the entries in key order; they occupy disjoint stretches of `nd`. */
  ghost predicate Placed(kv: Bytes, nd: seq<int>, nodes: seq<int>, maxHeight: int) {
    && |nodes| > 0 && nodes[0] == 0
    && 1 <= maxHeight <= MAX_HEIGHT
    && (forall i :: 0 <= i < |nodes| ==> NodeOk(kv, nd, nodes[i]))
    && NodeHeight(nd, 0) == MAX_HEIGHT
    && (forall i :: 1 <= i < |nodes| ==> NodeHeight(nd, nodes[i]) <= maxHeight)
    && (forall i, j :: 0 <= i < j < |nodes| ==> Apart(nd, nodes[i], nodes[j]))
  }

  ghost predicate KeysSorted(kv: Bytes, nd: seq<int>, nodes: seq<int>)
    requires forall i :: 0 <= i < |nodes| ==> NodeOk(kv, nd, nodes[i])
  {
    forall i, j :: 1 <= i < j < |nodes| ==> Less(Key(kv, nd, nodes[i]), Key(kv, nd, nodes[j]))
  }

  /** Level h of node p leads to the next node that reaches above h: every level is a sublist of the one below. */
  ghost predicate LinkOk(nd: seq<int>, nodes: seq<int>, p: nat, h: nat)
    requires p < |nodes|
  {
    0 <= nodes[p] && nodes[p] + NEXT + h < |nd| &&
    nd[nodes[p] + NEXT + h] == LinkTo(nodes, Succ(nd, nodes, p + 1, h))
  }

  ghost predicate LinksOk(kv: Bytes, nd: seq<int>, nodes: seq<int>)
    requires forall i :: 0 <= i < |nodes| ==> NodeOk(kv, nd, nodes[i])
  {
    forall p: nat, h: nat :: p < |nodes| && h < NodeHeight(nd, nodes[p]) ==> LinkOk(nd, nodes, p, h)
  }

  ghost predicate Shape(kv: Bytes, nd: seq<int>, nodes: seq<int>, maxHeight: int) {
    && Placed(kv, nd, nodes, maxHeight)
    && KeysSorted(kv, nd, nodes)
    && LinksOk(kv, nd, nodes)
  }

  /** The map the arrays stand for; an empty value is a tombstone. */
  ghost predicate Represents(kv: Bytes, nd: seq<int>, nodes: seq<int>, m: map<Bytes, Bytes>)
    requires forall i :: 0 <= i < |nodes| ==> NodeOk(kv, nd, nodes[i])
  {
    && (forall i :: 1 <= i < |nodes| ==>
          Key(kv, nd, nodes[i]) in m && m[Key(kv, nd, nodes[i])] == Val(kv, nd, nodes[i]))
    && (forall k :: k in m ==> exists i :: 1 <= i < |nodes| && Key(kv, nd, nodes[i]) == k)
  }

  // ------------------------------------------------------- searching

  /** Index r separates the keys below `key` from the rest. */
  ghost predicate Separates(kv: Bytes, nd: seq<int>, nodes: seq<int>, key: Bytes, r: nat) {
    && (forall i :: 0 <= i < |nodes| ==> NodeOk(kv, nd, nodes[i]))
    && 1 <= r <= |nodes|
    && (forall i :: 1 <= i < r ==> Less(Key(kv, nd, nodes[i]), key))
    && (forall i :: r <= i < |nodes| ==> !Less(Key(kv, nd, nodes[i]), key))
  }

  /** A node with a smaller key whose successor at level 0 is not smaller is where the list splits. */
  lemma SplitHere(kv: Bytes, nd: seq<int>, nodes: seq<int>, key: Bytes, p: nat)
    requires (forall i :: 0 <= i < |nodes| ==> NodeOk(kv, nd, nodes[i])) && KeysSorted(kv, nd, nodes)
    requires p < |nodes|
    requires p > 0 ==> Less(Key(kv, nd, nodes[p]), key)
    requires p + 1 < |nodes| ==> !Less(Key(kv, nd, nodes[p + 1]), key)
    ensures Separates(kv, nd, nodes, key, p + 1)
  {
    forall i | 1 <= i < p + 1 ensures Less(Key(kv, nd, nodes[i]), key) {
      if i < p { LessTransitive(Key(kv, nd, nodes[i]), Key(kv, nd, nodes[p]), key); }
    }
    forall i | p + 1 <= i < |nodes| ensures !Less(Key(kv, nd, nodes[i]), key) {
      if i > p + 1 && Less(Key(kv, nd, nodes[i]), key) {
        LessTransitive(Key(kv, nd, nodes[p + 1]), Key(kv, nd, nodes[i]), key);
      }
    }
  }

  /** Hitting the key itself also tells where the list splits. */
  lemma SplitAtKey(kv: Bytes, nd: seq<int>, nodes: seq<int>, key: Bytes, q: nat)
    requires (forall i :: 0 <= i < |nodes| ==> NodeOk(kv, nd, nodes[i])) && KeysSorted(kv, nd, nodes)
    requires 1 <= q < |nodes| && Key(kv, nd, nodes[q]) == key
    ensures Separates(kv, nd, nodes, key, q)
  {
    LessIrreflexive(key);
    forall i | q < i < |nodes| ensures !Less(Key(kv, nd, nodes[i]), key) {
      LessAsymmetric(Key(kv, nd, nodes[q]), Key(kv, nd, nodes[i]));
    }
  }

  /** The last node at level h below `key`: where a new node of that height hangs in. */
  ghost predicate HangsAt(kv: Bytes, nd: seq<int>, nodes: seq<int>, key: Bytes, h: nat, p: nat) {
    && (forall i :: 0 <= i < |nodes| ==> NodeOk(kv, nd, nodes[i]))
    && p < |nodes| && h < NodeHeight(nd, nodes[p])
    && (p > 0 ==> Less(Key(kv, nd, nodes[p]), key))
    && (var q := Succ(nd, nodes, p + 1, h); q < |nodes| ==> !Less(Key(kv, nd, nodes[q]), key))
  }

  /** With the split known, the hanging point is just before it among the nodes tall enough. */
  lemma HangsBeforeSplit(kv: Bytes, nd: seq<int>, nodes: seq<int>, key: Bytes, h: nat, p: nat, r: nat)
    requires HangsAt(kv, nd, nodes, key, h, p) && Separates(kv, nd, nodes, key, r)
    ensures p < r && Succ(nd, nodes, p + 1, h) >= r
  {
  }

  // ------------------------------------------------------- inserting

  /** Threading a new node into levels i, i + 1, ..., h - 1 after the nodes in `prev`. */
  function Thread(nd: seq<int>, node: nat, prev: seq<int>, i: nat, h: nat): seq<int>
    requires i <= h <= |prev|
    requires forall j :: i <= j < h ==> 0 <= prev[j] && prev[j] + NEXT + j < |nd|
    decreases h - i
  {
    if i == h then nd
    else
      var m := prev[i] + NEXT + i;
      Thread((nd + [nd[m]])[m := node], node, prev, i + 1, h)
  }

  ghost predicate SlotsApart(prev: seq<int>, i: nat, h: nat)
    requires i <= h <= |prev|
  {
    forall j, k :: i <= j < k < h ==> prev[j] + j != prev[k] + k
  }

  ghost predicate IsSlot(prev: seq<int>, i: nat, h: nat, x: int)
    requires i <= h <= |prev|
  {
    exists j :: i <= j < h && x == prev[j] + NEXT + j
  }

  ghost predicate SlotsIn(nd: seq<int>, prev: seq<int>, i: nat, h: nat)
    requires i <= h <= |prev|
  {
    forall j :: i <= j < h ==> 0 <= prev[j] && prev[j] + NEXT + j < |nd|
  }

  /** Threading moves nothing but the slots ... */
  lemma {:induction false} ThreadFrame(nd: seq<int>, node: nat, prev: seq<int>, i: nat, h: nat, x: nat)
    requires i <= h <= |prev| && SlotsIn(nd, prev, i, h)
    requires x < |nd| && !IsSlot(prev, i, h, x)
    ensures |Thread(nd, node, prev, i, h)| == |nd| + h - i
    ensures Thread(nd, node, prev, i, h)[x] == nd[x]
    decreases h - i
  {
    if i < h {
      var m := prev[i] + NEXT + i;
      var nd1 := (nd + [nd[m]])[m := node];
      assert !IsSlot(prev, i + 1, h, x);
      ThreadFrame(nd1, node, prev, i + 1, h, x);
    }
  }

  /** ... which now lead to the new node ... */
  lemma {:induction false} ThreadSlot(nd: seq<int>, node: nat, prev: seq<int>, i: nat, h: nat, j: nat)
    requires i <= j < h <= |prev| && SlotsIn(nd, prev, i, h) && SlotsApart(prev, i, h)
    ensures |Thread(nd, node, prev, i, h)| == |nd| + h - i
    ensures Thread(nd, node, prev, i, h)[prev[j] + NEXT + j] == node
    decreases h - i
  {
    var m := prev[i] + NEXT + i;
    var nd1 := (nd + [nd[m]])[m := node];
    if j == i {
      assert !IsSlot(prev, i + 1, h, m);
      ThreadFrame(nd1, node, prev, i + 1, h, m);
    } else {
      ThreadSlot(nd1, node, prev, i + 1, h, j);
    }
  }

  /** ... while the new node takes over what they led to. */
  lemma {:induction false} ThreadNew(nd: seq<int>, node: nat, prev: seq<int>, i: nat, h: nat, j: nat)
    requires i <= j < h <= |prev| && SlotsIn(nd, prev, i, h) && SlotsApart(prev, i, h)
    ensures |Thread(nd, node, prev, i, h)| == |nd| + h - i
    ensures Thread(nd, node, prev, i, h)[|nd| + j - i] == nd[prev[j] + NEXT + j]
    decreases h - i
  {
    var m := prev[i] + NEXT + i;
    var nd1 := (nd + [nd[m]])[m := node];
    if j == i {
      assert !IsSlot(prev, i + 1, h, |nd|);
      ThreadFrame(nd1, node, prev, i + 1, h, |nd|);
    } else {
      ThreadNew(nd1, node, prev, i + 1, h, j);
      assert nd1[prev[j] + NEXT + j] == nd[prev[j] + NEXT + j];
    }
  }
}
